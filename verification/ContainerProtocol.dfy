/**
 The container under concurrency: every operation is a sequence of steps (take the lock, the body
 one memory access at a time, release, return) and the steps of any number of threads interleave.
 Every history is linearizable to the sequential container, and maps handed across the boundary
 are never shared with it.
 */
module ContainerProtocol {
  import opened Wrappers
  import opened Container
  import Runs

  type Tid = nat
  type Ref = nat  // a map in memory

  // ------------------------------------------------------------------ states

  datatype Pc =
    | Called                          // before the lock
    | Locked                          // the body has not started
    | HalfRefreshed                   // ValidAfter is written, ValidBefore is not
    | KeySeen                         // Del has looked the key up and found it
    | Copying(left: set<Key>)         // Data's loop
    | Finished(res: Result)           // the body is over, the deferred unlock is not
    | Unlocked(res: Result)           // about to return

  /** An operation in progress; `mine` is the map that Data is filling. */
  datatype Thread = Thread(id: nat, op: Op, pc: Pc, mine: Option<Ref>)

  datatype Event = Invoke(tid: Tid, op: Op) | Return(id: nat, res: Result)

  /** An operation taking effect when the history had length `at`. */
  datatype Effect = Effect(id: nat, op: Op, res: Result, at: nat)

  /**
   `heap` holds the contents of every map allocated so far; `owned` are the maps that callers can
   reach. `hist` and `effects` record the run.
   */
  datatype State = State(
    after: int, before: int, payload: Ref, heap: seq<Payload>,
    writer: Option<Tid>, readers: set<Tid>, threads: map<Tid, Thread>,
    owned: set<Ref>, hist: seq<Event>, effects: seq<Effect>)

  predicate Writes(op: Op) { !op.Get? && !op.Data? }

  predicate Holding(pc: Pc) { !pc.Called? && !pc.Unlocked? }

  predicate TookEffect(pc: Pc) { pc.Finished? || pc.Unlocked? }

  /** As the constructor of Store leaves it: the caller keeps its map, the container has its own copy. */
  function Initial(after: int, ttl: int, given: Payload): State {
    State(after, after + ttl, 1, [given, given], None, {}, map[], {0}, [], [])
  }

  function InitialContents(after: int, ttl: int, given: Payload): Contents {
    Contents(after, after + ttl, given)
  }

  // ------------------------------------------------------------------- steps

  datatype Action =
    | Begin(t: Tid, op: Op)
    | Acquire(t: Tid)
    | Body(t: Tid)
    | CopyOne(t: Tid, key: Key)
    | Release(t: Tid)
    | Leave(t: Tid)
    | CallerWrites(ref: Ref, contents: Payload)

  predicate Enabled(s: State, a: Action) {
    match a
    case Begin(t, _) => t !in s.threads
    case Acquire(t) =>
      t in s.threads && s.threads[t].pc == Called && s.writer == None
      && (Writes(s.threads[t].op) ==> s.readers == {})
    case Body(t) =>
      t in s.threads && Holding(s.threads[t].pc) && !s.threads[t].pc.Finished?
      && (s.threads[t].pc.Copying? ==> s.threads[t].pc.left == {})
    case CopyOne(t, k) => t in s.threads && s.threads[t].pc.Copying? && k in s.threads[t].pc.left
    case Release(t) => t in s.threads && s.threads[t].pc.Finished?
    case Leave(t) => t in s.threads && s.threads[t].pc.Unlocked?
    case CallerWrites(ref, _) => ref in s.owned
  }

  /** References stay inside memory; every reachable state has this. */
  predicate InMemory(s: State) {
    && s.payload < |s.heap|
    && (forall r | r in s.owned :: r < |s.heap|)
    && (forall t | t in s.threads :: ThreadInMemory(s.heap, s.payload, s.threads[t]))
  }

  predicate ThreadInMemory(heap: seq<Payload>, payload: Ref, th: Thread)
    requires payload < |heap|
  {
    && (th.mine.Some? ==> th.mine.value < |heap|)
    && (th.pc.Copying? ==> th.mine.Some? && th.pc.left <= heap[payload].Keys)
  }

  function Goto(s: State, t: Tid, pc: Pc): State
    requires t in s.threads
  {
    s.(threads := s.threads[t := s.threads[t].(pc := pc)])
  }

  /** The point where the operation of `t` takes effect with result `res`. */
  function Effective(s: State, t: Tid, res: Result): State
    requires t in s.threads
  {
    var th := s.threads[t];
    Goto(s, t, Finished(res)).(effects := s.effects + [Effect(th.id, th.op, res, |s.hist|)])
  }

  function DoBody(s: State, t: Tid): State
    requires InMemory(s) && Enabled(s, Body(t))
  {
    var th, payload := s.threads[t], s.heap[s.payload];
    match (th.pc, th.op)
    case (HalfRefreshed, Refresh(_, b)) => Effective(s.(before := b), t, Done)
    case (KeySeen, Del(k)) => Effective(s.(heap := s.heap[s.payload := payload - {k}]), t, Deleted(true))
    case (Copying(_), _) => Effective(s, t, Copied(s.heap[th.mine.value]))
    case (_, Refresh(a, _)) => Goto(s.(after := a), t, HalfRefreshed)
    case (_, Get(k)) => Effective(s, t, if k in payload then Found(payload[k]) else Missing)
    case (_, Set(k, v)) => Effective(s.(heap := s.heap[s.payload := payload[k := v]]), t, Done)
    case (_, Del(k)) => if k in payload then Goto(s, t, KeySeen) else Effective(s, t, Deleted(false))
    case (_, Clean) => Effective(s.(heap := s.heap + [map[]], payload := |s.heap|), t, Done)
    case (_, Data) =>
      s.(heap := s.heap + [map[]], threads := s.threads[t := th.(pc := Copying(payload.Keys), mine := Some(|s.heap|))])
  }

  function Do(s: State, a: Action): State
    requires InMemory(s) && Enabled(s, a)
  {
    match a
    case Begin(t, op) =>
      s.(threads := s.threads[t := Thread(|s.hist|, op, Called, None)], hist := s.hist + [Invoke(t, op)])
    case Acquire(t) =>
      if Writes(s.threads[t].op) then Goto(s, t, Locked).(writer := Some(t))
      else Goto(s, t, Locked).(readers := s.readers + {t})
    case Body(t) => DoBody(s, t)
    case CopyOne(t, k) =>
      var th := s.threads[t];
      var dst := th.mine.value;
      Goto(s, t, Copying(th.pc.left - {k})).(heap := s.heap[dst := s.heap[dst][k := s.heap[s.payload][k]]])
    case Release(t) =>
      var s' := Goto(s, t, Unlocked(s.threads[t].pc.res));
      if Writes(s.threads[t].op) then s'.(writer := None) else s'.(readers := s.readers - {t})
    case Leave(t) =>
      var th := s.threads[t];
      s.(threads := s.threads - {t}, hist := s.hist + [Return(th.id, th.pc.res)],
         owned := if th.mine.Some? then s.owned + {th.mine.value} else s.owned)
    case CallerWrites(ref, contents) => s.(heap := s.heap[ref := contents])
  }

  // --------------------------------------------------------------- histories

  /** The contents after a list of effects. */
  function After(c: Contents, effects: seq<Effect>): Contents {
    if effects == [] then c else Apply(After(c, effects[..|effects| - 1]), effects[|effects| - 1].op).0
  }

  /** Every effect has the result that the sequential container gives at its turn. */
  ghost predicate Legal(c: Contents, effects: seq<Effect>) {
    forall i | 0 <= i < |effects| :: effects[i].res == Apply(After(c, effects[..i]), effects[i].op).1
  }

  /** `order` has one entry at most for each invocation, and is right about its operation. */
  ghost predicate Sound(hist: seq<Event>, order: seq<Effect>) {
    && (forall i, j | 0 <= i < j < |order| :: order[i].id != order[j].id)
    && (forall i | 0 <= i < |order| ::
          order[i].id < |hist| && hist[order[i].id].Invoke? && hist[order[i].id].op == order[i].op)
  }

  /** Every return is explained by an entry with the same result. */
  ghost predicate Explains(hist: seq<Event>, order: seq<Effect>) {
    forall r | 0 <= r < |hist| && hist[r].Return? ::
      exists i :: 0 <= i < |order| && order[i].id == hist[r].id && order[i].res == hist[r].res
  }

  /** An operation that returned before another was invoked comes first. */
  ghost predicate KeepsRealTime(hist: seq<Event>, order: seq<Effect>) {
    forall r, i, j | 0 <= r < |hist| && hist[r].Return? && 0 <= i < |order| && 0 <= j < |order|
      && order[i].id == hist[r].id && r < order[j].id :: i < j
  }

  /** Linearizability of a history to the sequential container that starts as `c`. */
  ghost predicate Linearizable(c: Contents, hist: seq<Event>) {
    exists order: seq<Effect> ::
      Sound(hist, order) && Legal(c, order) && Explains(hist, order) && KeepsRealTime(hist, order)
  }

  // -------------------------------------------------------------- invariants

  ghost predicate LockInv(s: State) {
    && (forall t | t in s.threads :: HoldsLock(s, t, s.threads[t]))
    && (s.writer.Some? ==> s.readers == {} && HoldsFor(s, s.writer.value, true))
    && (forall t | t in s.readers :: HoldsFor(s, t, false))
  }

  predicate HoldsLock(s: State, t: Tid, th: Thread) {
    && PcFits(th)
    && (Holding(th.pc) ==> if Writes(th.op) then s.writer == Some(t) else t in s.readers)
  }

  predicate HoldsFor(s: State, t: Tid, writes: bool) {
    t in s.threads && Holding(s.threads[t].pc) && Writes(s.threads[t].op) == writes
  }

  predicate PcFits(th: Thread) {
    && (th.pc.HalfRefreshed? ==> th.op.Refresh?)
    && (th.pc.KeySeen? ==> th.op.Del?)
    && (th.pc.Copying? ==> th.op.Data?)
    && (th.mine.Some? ==> th.op.Data? && !th.pc.Called? && !th.pc.Locked?)
  }

  /** Each operation in progress is known to the history, and has an effect once it took effect. */
  ghost predicate IdInv(s: State) {
    && Sound(s.hist, s.effects) && Explains(s.hist, s.effects)
    && (forall t | t in s.threads :: s.threads[t].id < |s.hist|
          && s.hist[s.threads[t].id] == Invoke(t, s.threads[t].op))
    && (forall t, i | t in s.threads && 0 <= i < |s.effects| && s.effects[i].id == s.threads[t].id ::
          TookEffect(s.threads[t].pc))
    && (forall t | t in s.threads && TookEffect(s.threads[t].pc) :: HasEffect(s, s.threads[t].id, s.threads[t].pc.res))
  }

  ghost predicate HasEffect(s: State, id: nat, res: Result) {
    exists i :: 0 <= i < |s.effects| && s.effects[i].id == id && s.effects[i].res == res
  }

  /** Effects lie between invocation and return. */
  ghost predicate TimeInv(s: State) {
    && (forall i | 0 <= i < |s.effects| :: s.effects[i].id < s.effects[i].at <= |s.hist|)
    && (forall i, j | 0 <= i < j < |s.effects| :: s.effects[i].at <= s.effects[j].at)
    && (forall r, i | 0 <= r < |s.hist| && s.hist[r].Return? && 0 <= i < |s.effects|
          && s.effects[i].id == s.hist[r].id ::
          s.effects[i].at <= r)
  }

  /** The effects so far lead to the present contents, up to a Refresh that is half done. */
  ghost predicate DataInv(s: State, c: Contents) {
    && s.payload < |s.heap|
    && Legal(c, s.effects)
    && After(c, s.effects).payload == s.heap[s.payload]
    && After(c, s.effects).before == s.before
    && (forall t | t in s.threads :: MidwayOk(s, s.threads[t]))
    && ((forall t | t in s.threads :: !s.threads[t].pc.HalfRefreshed?) ==> After(c, s.effects).after == s.after)
  }

  predicate MidwayOk(s: State, th: Thread)
    requires s.payload < |s.heap|
  {
    && (th.pc.HalfRefreshed? && th.op.Refresh? ==> s.after == th.op.after)
    && (th.pc.KeySeen? && th.op.Del? ==> th.op.key in s.heap[s.payload])
  }

  /** Nobody else reaches the container's map, nor a copy before it is returned. */
  ghost predicate AliasInv(s: State) {
    Separate(s) && forall t | t in s.threads :: CopyOk(s.heap, s.payload, s.owned, s.threads[t])
  }

  ghost predicate Separate(s: State) {
    && s.payload < |s.heap| && s.payload !in s.owned
    && (forall r | r in s.owned :: r < |s.heap|)
    && (forall t, u | t in s.threads && u in s.threads && s.threads[t].mine.Some?
          && s.threads[t].mine == s.threads[u].mine :: t == u)
  }

  ghost predicate CopyOk(heap: seq<Payload>, payload: Ref, owned: set<Ref>, th: Thread)
    requires payload < |heap|
  {
    && (th.mine.Some? ==> th.mine.value < |heap| && th.mine.value != payload && th.mine.value !in owned)
    && (th.pc.Copying? ==>
          th.mine.Some? && th.pc.left <= heap[payload].Keys && heap[th.mine.value] == heap[payload] - th.pc.left)
    && (TookEffect(th.pc) && th.op.Data? ==> th.mine.Some? && th.pc.res == Copied(heap[th.mine.value]))
  }

  ghost predicate Inv(s: State, c: Contents) {
    LockInv(s) && IdInv(s) && TimeInv(s) && DataInv(s, c) && AliasInv(s)
  }

  lemma AliasInMemory(s: State)
    requires AliasInv(s)
    ensures InMemory(s)
  {
    forall t | t in s.threads ensures ThreadInMemory(s.heap, s.payload, s.threads[t]) {
      assert CopyOk(s.heap, s.payload, s.owned, s.threads[t]);
    }
  }

  /** A thread that writes inside its critical section is alone there. */
  lemma WriterAlone(s: State, t: Tid, u: Tid)
    requires LockInv(s) && t in s.threads && u in s.threads && t != u
    requires Holding(s.threads[t].pc) && Writes(s.threads[t].op)
    ensures !Holding(s.threads[u].pc)
  {
    assert HoldsLock(s, t, s.threads[t]) && HoldsLock(s, u, s.threads[u]);
  }

  // Each of the larger step lemmas is split: accesses of a body, and the other actions.

  lemma LockStep(s: State, a: Action)
    requires LockInv(s) && InMemory(s) && Enabled(s, a)
    ensures LockInv(Do(s, a))
  {
    if a.Body? {
      LockStepOfBody(s, a);
    } else {
      LockStepOfRest(s, a);
    }
  }

  lemma LockStepOfBody(s: State, a: Action)
    requires a.Body? && LockInv(s) && InMemory(s) && Enabled(s, a)
    ensures LockInv(Do(s, a))
  {
    assert HoldsLock(s, a.t, s.threads[a.t]);
  }

  lemma LockStepOfRest(s: State, a: Action)
    requires !a.Body? && LockInv(s) && InMemory(s) && Enabled(s, a)
    ensures LockInv(Do(s, a))
  {
    if !a.CallerWrites? {
      assert a.t in s.threads ==> HoldsLock(s, a.t, s.threads[a.t]);
    }
  }

  lemma CopyOkOther(s: State, a: Action, u: Tid)
    requires LockInv(s) && AliasInv(s) && InMemory(s) && Enabled(s, a)
    requires u in s.threads && (a.CallerWrites? || u != a.t)
    ensures var s' := Do(s, a);
      && u in s'.threads && s'.threads[u] == s.threads[u]
      && s'.payload < |s'.heap| && CopyOk(s'.heap, s'.payload, s'.owned, s'.threads[u])
  {
    if a.Body? {
      CopyOkOtherOfBody(s, a, u);
    } else {
      CopyOkOtherOfRest(s, a, u);
    }
  }

  lemma CopyOkOtherOfBody(s: State, a: Action, u: Tid)
    requires a.Body? && LockInv(s) && AliasInv(s) && InMemory(s) && Enabled(s, a)
    requires u in s.threads && u != a.t
    ensures var s' := Do(s, a);
      && u in s'.threads && s'.threads[u] == s.threads[u]
      && s'.payload < |s'.heap| && CopyOk(s'.heap, s'.payload, s'.owned, s'.threads[u])
  {
    assert CopyOk(s.heap, s.payload, s.owned, s.threads[u]);
    if Writes(s.threads[a.t].op) {
      WriterAlone(s, a.t, u);
    }
  }

  lemma CopyOkOtherOfRest(s: State, a: Action, u: Tid)
    requires !a.Body? && LockInv(s) && AliasInv(s) && InMemory(s) && Enabled(s, a)
    requires u in s.threads && (a.CallerWrites? || u != a.t)
    ensures var s' := Do(s, a);
      && u in s'.threads && s'.threads[u] == s.threads[u]
      && s'.payload < |s'.heap| && CopyOk(s'.heap, s'.payload, s'.owned, s'.threads[u])
  {
    assert CopyOk(s.heap, s.payload, s.owned, s.threads[u]);
  }

  lemma CopyOkSelf(s: State, a: Action)
    requires LockInv(s) && AliasInv(s) && InMemory(s) && Enabled(s, a) && !a.CallerWrites?
    ensures var s' := Do(s, a);
      s'.payload < |s'.heap| && (a.t in s'.threads ==> CopyOk(s'.heap, s'.payload, s'.owned, s'.threads[a.t]))
  {
    if a.Body? {
      CopyOkSelfOfBody(s, a);
    } else {
      CopyOkSelfOfRest(s, a);
    }
  }

  lemma CopyOkSelfOfBody(s: State, a: Action)
    requires a.Body? && LockInv(s) && AliasInv(s) && InMemory(s) && Enabled(s, a)
    ensures var s' := Do(s, a);
      s'.payload < |s'.heap| && (a.t in s'.threads ==> CopyOk(s'.heap, s'.payload, s'.owned, s'.threads[a.t]))
  {
    assert HoldsLock(s, a.t, s.threads[a.t]) && CopyOk(s.heap, s.payload, s.owned, s.threads[a.t]);
  }

  lemma CopyOkSelfOfRest(s: State, a: Action)
    requires !a.Body? && LockInv(s) && AliasInv(s) && InMemory(s) && Enabled(s, a) && !a.CallerWrites?
    ensures var s' := Do(s, a);
      s'.payload < |s'.heap| && (a.t in s'.threads ==> CopyOk(s'.heap, s'.payload, s'.owned, s'.threads[a.t]))
  {
    if a.t in s.threads {
      assert HoldsLock(s, a.t, s.threads[a.t]) && CopyOk(s.heap, s.payload, s.owned, s.threads[a.t]);
    }
  }

  lemma AliasStep(s: State, a: Action)
    requires LockInv(s) && AliasInv(s) && InMemory(s) && Enabled(s, a)
    ensures AliasInv(Do(s, a))
  {
    var s' := Do(s, a);
    if !a.CallerWrites? {
      CopyOkSelf(s, a);
    }
    forall u | u in s'.threads && (a.CallerWrites? || u != a.t)
      ensures u in s.threads && s'.threads[u] == s.threads[u] && CopyOk(s'.heap, s'.payload, s'.owned, s'.threads[u])
    {
      CopyOkOther(s, a, u);
    }
    SeparateStep(s, a);
  }

  lemma SeparateStep(s: State, a: Action)
    requires LockInv(s) && AliasInv(s) && InMemory(s) && Enabled(s, a)
    ensures Separate(Do(s, a))
  {
    if a.Body? {
      SeparateStepOfBody(s, a);
    } else {
      SeparateStepOfRest(s, a);
    }
  }

  lemma SeparateStepOfBody(s: State, a: Action)
    requires a.Body? && LockInv(s) && AliasInv(s) && InMemory(s) && Enabled(s, a)
    ensures Separate(Do(s, a))
  {
    assert forall t | t in s.threads :: CopyOk(s.heap, s.payload, s.owned, s.threads[t]);
  }

  lemma SeparateStepOfRest(s: State, a: Action)
    requires !a.Body? && LockInv(s) && AliasInv(s) && InMemory(s) && Enabled(s, a)
    ensures Separate(Do(s, a))
  {
    assert forall t | t in s.threads :: CopyOk(s.heap, s.payload, s.owned, s.threads[t]);
  }

  /** The record of a run after a step that starts an operation. */
  ghost predicate Begins(s: State, s': State, t: Tid, op: Op) {
    && t !in s.threads && s'.threads == s.threads[t := Thread(|s.hist|, op, Called, None)]
    && s'.hist == s.hist + [Invoke(t, op)] && s'.effects == s.effects
  }

  /** ... after the step where the operation of `t` takes effect. */
  ghost predicate TakesEffect(s: State, s': State, t: Tid) {
    && t in s.threads && t in s'.threads && !TookEffect(s.threads[t].pc) && s'.threads[t].pc.Finished?
    && s'.threads == s.threads[t := s.threads[t].(pc := s'.threads[t].pc)]
    && s'.hist == s.hist
    && s'.effects == s.effects + [Effect(s.threads[t].id, s.threads[t].op, s'.threads[t].pc.res, |s.hist|)]
  }

  /** ... after the return of `t`. */
  ghost predicate Leaves(s: State, s': State, t: Tid) {
    && t in s.threads && s.threads[t].pc.Unlocked? && s'.threads == s.threads - {t}
    && s'.hist == s.hist + [Return(s.threads[t].id, s.threads[t].pc.res)] && s'.effects == s.effects
  }

  /** ... after any other step. */
  ghost predicate Quiet(s: State, s': State) {
    && s'.threads.Keys == s.threads.Keys && s'.hist == s.hist && s'.effects == s.effects
    && forall t | t in s.threads :: SameRecord(s.threads[t], s'.threads[t])
  }

  predicate SameRecord(th: Thread, th': Thread) {
    && th'.id == th.id && th'.op == th.op && TookEffect(th'.pc) == TookEffect(th.pc)
    && (TookEffect(th.pc) ==> th'.pc.res == th.pc.res)
  }

  ghost predicate RecordChanges(s: State, a: Action, s': State) {
    match a
    case Begin(t, op) => Begins(s, s', t, op)
    case Leave(t) => Leaves(s, s', t)
    case Body(t) => TakesEffect(s, s', t) || Quiet(s, s')
    case _ => Quiet(s, s')
  }

  lemma RecordStep(s: State, a: Action)
    requires LockInv(s) && InMemory(s) && Enabled(s, a)
    ensures RecordChanges(s, a, Do(s, a))
  {
    if a.Body? {
      RecordStepOfBody(s, a);
    } else {
      RecordStepOfRest(s, a);
    }
  }

  lemma RecordStepOfBody(s: State, a: Action)
    requires a.Body? && LockInv(s) && InMemory(s) && Enabled(s, a)
    ensures RecordChanges(s, a, Do(s, a))
  {
    assert HoldsLock(s, a.t, s.threads[a.t]);
  }

  lemma RecordStepOfRest(s: State, a: Action)
    requires !a.Body? && LockInv(s) && InMemory(s) && Enabled(s, a)
    ensures RecordChanges(s, a, Do(s, a))
  {
    if !a.CallerWrites? && a.t in s.threads {
      assert HoldsLock(s, a.t, s.threads[a.t]);
    }
  }

  lemma SoundStep(s: State, a: Action, s': State)
    requires IdInv(s) && RecordChanges(s, a, s')
    ensures Sound(s'.hist, s'.effects)
  {
    assert forall i | 0 <= i < |s.effects| :: s'.effects[i] == s.effects[i];
    assert forall i | 0 <= i < |s.hist| :: s'.hist[i] == s.hist[i];
  }

  lemma ExplainsStep(s: State, a: Action, s': State)
    requires IdInv(s) && RecordChanges(s, a, s')
    ensures Explains(s'.hist, s'.effects)
  {
    assert forall i | 0 <= i < |s.hist| :: s'.hist[i] == s.hist[i];
    if a.Leave? {
      assert HasEffect(s, s.threads[a.t].id, s.threads[a.t].pc.res);
    }
    forall r | 0 <= r < |s'.hist| && s'.hist[r].Return?
      ensures exists i ::
        0 <= i < |s'.effects| && s'.effects[i].id == s'.hist[r].id && s'.effects[i].res == s'.hist[r].res
    {
      var i :| 0 <= i < |s.effects| && s.effects[i].id == s'.hist[r].id && s.effects[i].res == s'.hist[r].res;
      assert s'.effects[i] == s.effects[i];
    }
  }

  lemma IdStep(s: State, a: Action, s': State)
    requires IdInv(s) && RecordChanges(s, a, s')
    ensures IdInv(s')
  {
    SoundStep(s, a, s');
    ExplainsStep(s, a, s');
    InvokedStep(s, a, s');
    EffectsStep(s, a, s');
    forall t | t in s'.threads && TookEffect(s'.threads[t].pc)
      ensures HasEffect(s', s'.threads[t].id, s'.threads[t].pc.res)
    {
      HasEffectStep(s, a, s', t);
    }
  }

  lemma InvokedStep(s: State, a: Action, s': State)
    requires IdInv(s) && RecordChanges(s, a, s')
    ensures forall t | t in s'.threads ::
      s'.threads[t].id < |s'.hist| && s'.hist[s'.threads[t].id] == Invoke(t, s'.threads[t].op)
  {
    forall t | t in s'.threads
      ensures s'.threads[t].id < |s'.hist| && s'.hist[s'.threads[t].id] == Invoke(t, s'.threads[t].op)
    {
      assert t in s.threads ==> s'.threads[t].id == s.threads[t].id && s'.threads[t].op == s.threads[t].op;
    }
  }

  lemma EffectsStep(s: State, a: Action, s': State)
    requires IdInv(s) && RecordChanges(s, a, s')
    ensures forall t, i | t in s'.threads && 0 <= i < |s'.effects| && s'.effects[i].id == s'.threads[t].id ::
      TookEffect(s'.threads[t].pc)
  {
    forall t, i | t in s'.threads && 0 <= i < |s'.effects| && s'.effects[i].id == s'.threads[t].id
      ensures TookEffect(s'.threads[t].pc)
    {
      assert t in s.threads ==> s'.threads[t].id == s.threads[t].id;
      if i < |s.effects| {
        assert s'.effects[i] == s.effects[i];
      } else {
        assert s.hist[s.threads[t].id] == Invoke(t, s.threads[t].op);
        assert s.hist[s.threads[a.t].id] == Invoke(a.t, s.threads[a.t].op);
      }
    }
  }

  lemma HasEffectStep(s: State, a: Action, s': State, t: Tid)
    requires IdInv(s) && RecordChanges(s, a, s') && t in s'.threads && TookEffect(s'.threads[t].pc)
    ensures HasEffect(s', s'.threads[t].id, s'.threads[t].pc.res)
  {
    if a.Body? && TakesEffect(s, s', a.t) && t == a.t {
      assert s'.effects[|s.effects|].id == s'.threads[t].id;
    } else {
      assert HasEffect(s, s.threads[t].id, s.threads[t].pc.res);
      var i :| 0 <= i < |s.effects| && s.effects[i].id == s.threads[t].id && s.effects[i].res == s.threads[t].pc.res;
      assert s'.effects[i] == s.effects[i];
    }
  }

  lemma TimeStep(s: State, a: Action, s': State)
    requires IdInv(s) && TimeInv(s) && RecordChanges(s, a, s')
    ensures TimeInv(s')
  {
    EffectsInTime(s, a, s');
    ReturnsAfterEffects(s, a, s');
  }

  lemma EffectsInTime(s: State, a: Action, s': State)
    requires IdInv(s) && TimeInv(s) && RecordChanges(s, a, s')
    ensures forall i | 0 <= i < |s'.effects| :: s'.effects[i].id < s'.effects[i].at <= |s'.hist|
    ensures forall i, j | 0 <= i < j < |s'.effects| :: s'.effects[i].at <= s'.effects[j].at
  {
    assert forall i | 0 <= i < |s.effects| :: s'.effects[i] == s.effects[i];
  }

  lemma ReturnsAfterEffects(s: State, a: Action, s': State)
    requires IdInv(s) && TimeInv(s) && RecordChanges(s, a, s')
    ensures forall r, i | 0 <= r < |s'.hist| && s'.hist[r].Return? && 0 <= i < |s'.effects|
        && s'.effects[i].id == s'.hist[r].id ::
      s'.effects[i].at <= r
  {
    if a.Body? && TakesEffect(s, s', a.t) {
      forall r | 0 <= r < |s.hist| && s.hist[r].Return? ensures s.hist[r].id != s.threads[a.t].id {
        var i :| 0 <= i < |s.effects| && s.effects[i].id == s.hist[r].id && s.effects[i].res == s.hist[r].res;
        assert s.effects[i].id != s.threads[a.t].id;
      }
    }
  }

  lemma AfterAppend(c: Contents, effects: seq<Effect>, e: Effect)
    requires Legal(c, effects)
    ensures After(c, effects + [e]) == Apply(After(c, effects), e.op).0
    ensures Legal(c, effects + [e]) <==> e.res == Apply(After(c, effects), e.op).1
  {
    var all := effects + [e];
    assert all[..|all| - 1] == effects;
    assert forall i | 0 <= i <= |effects| :: all[..i] == effects[..i];
    if e.res == Apply(After(c, effects), e.op).1 {
      forall i | 0 <= i < |all| ensures all[i].res == Apply(After(c, all[..i]), all[i].op).1 {
        assert all[..i] == effects[..i];
      }
    } else {
      assert all[|effects|].res != Apply(After(c, all[..|effects|]), all[|effects|].op).1;
    }
  }

  /** While a thread is inside its critical section, no other one is half way through a Refresh. */
  lemma NobodyHalfway(s: State, t: Tid, u: Tid)
    requires LockInv(s) && t in s.threads && Holding(s.threads[t].pc) && u in s.threads && u != t
    ensures !s.threads[u].pc.HalfRefreshed?
  {
    assert HoldsLock(s, t, s.threads[t]) && HoldsLock(s, u, s.threads[u]);
  }

  /** What an operation does to memory at the point where it takes effect. */
  lemma EffectIsSequential(s: State, t: Tid, c: Contents)
    requires LockInv(s) && AliasInv(s) && InMemory(s) && DataInv(s, c) && Enabled(s, Body(t))
      && TakesEffect(s, Do(s, Body(t)), t)
    ensures var s' := Do(s, Body(t));
      && s'.payload < |s'.heap|
      && (Contents(s'.after, s'.before, s'.heap[s'.payload]), s'.threads[t].pc.res) ==
            Apply(After(c, s.effects), s.threads[t].op)
  {
    assert HoldsLock(s, t, s.threads[t]) && MidwayOk(s, s.threads[t])
      && CopyOk(s.heap, s.payload, s.owned, s.threads[t]);
    forall u | u in s.threads && u != t ensures !s.threads[u].pc.HalfRefreshed? {
      NobodyHalfway(s, t, u);
    }
    assert !s.threads[t].pc.HalfRefreshed? ==> After(c, s.effects).after == s.after;
    var payload := s.heap[s.payload];
    assert payload - {} == payload;
    assert s.threads[t].op.Del? && s.threads[t].op.key !in payload ==> payload - {s.threads[t].op.key} == payload;
  }

  lemma DataEffect(s: State, t: Tid, c: Contents)
    requires LockInv(s) && AliasInv(s) && InMemory(s) && DataInv(s, c) && Enabled(s, Body(t))
      && TakesEffect(s, Do(s, Body(t)), t)
    ensures DataInv(Do(s, Body(t)), c)
  {
    var s', th := Do(s, Body(t)), s.threads[t];
    EffectIsSequential(s, t, c);
    AfterAppend(c, s.effects, Effect(th.id, th.op, s'.threads[t].pc.res, |s.hist|));
    forall u | u in s'.threads ensures MidwayOk(s', s'.threads[u]) {
      if u != t {
        assert MidwayOk(s, s.threads[u]) && HoldsLock(s, u, s.threads[u]);
        NobodyHalfway(s, t, u);
        if Holding(s.threads[u].pc) && Writes(s.threads[u].op) {
          WriterAlone(s, u, t);
        }
      }
    }
  }

  lemma DataOther(s: State, a: Action, c: Contents)
    requires LockInv(s) && AliasInv(s) && InMemory(s) && DataInv(s, c) && Enabled(s, a)
    requires a.Body? ==> !TakesEffect(s, Do(s, a), a.t)
    ensures DataInv(Do(s, a), c)
  {
    var s' := Do(s, a);
    MemoryOther(s, a);
    RecordStep(s, a);
    forall u | u in s'.threads ensures MidwayOk(s', s'.threads[u]) {
      MidwayOther(s, a, c, u);
    }
    if forall t | t in s'.threads :: !s'.threads[t].pc.HalfRefreshed? {
      forall t | t in s.threads ensures !s.threads[t].pc.HalfRefreshed? {
        HalfwayOther(s, a, t);
      }
    }
  }

  /** Steps that do not take effect leave the contents alone, but for the first half of a Refresh. */
  lemma MemoryOther(s: State, a: Action)
    requires LockInv(s) && AliasInv(s) && InMemory(s) && Enabled(s, a)
    requires a.Body? ==> !TakesEffect(s, Do(s, a), a.t)
    ensures var s' := Do(s, a);
      && s'.before == s.before && s'.payload == s.payload < |s'.heap| && s'.heap[s'.payload] == s.heap[s.payload]
      && (s'.after == s.after || (a.Body? && a.t in s'.threads && s'.threads[a.t].pc.HalfRefreshed?))
  {
    if !a.CallerWrites? && a.t in s.threads {
      assert HoldsLock(s, a.t, s.threads[a.t]) && CopyOk(s.heap, s.payload, s.owned, s.threads[a.t]);
    }
  }

  lemma MidwayOther(s: State, a: Action, c: Contents, u: Tid)
    requires LockInv(s) && AliasInv(s) && InMemory(s) && DataInv(s, c) && Enabled(s, a) && u in Do(s, a).threads
    requires a.Body? ==> !TakesEffect(s, Do(s, a), a.t)
    ensures Do(s, a).payload < |Do(s, a).heap| && MidwayOk(Do(s, a), Do(s, a).threads[u])
  {
    MemoryOther(s, a);
    if u in s.threads && !a.CallerWrites? && u == a.t {
      assert MidwayOk(s, s.threads[u]) && HoldsLock(s, u, s.threads[u]);
      MidwaySelf(s, a);
    } else if u in s.threads {
      assert MidwayOk(s, s.threads[u]);
      MidwayStays(s, a, u);
    }
  }

  lemma MidwayStays(s: State, a: Action, u: Tid)
    requires LockInv(s) && AliasInv(s) && InMemory(s) && Enabled(s, a) && u in s.threads
      && (a.CallerWrites? || u != a.t)
    requires MidwayOk(s, s.threads[u])
    requires a.Body? ==> !TakesEffect(s, Do(s, a), a.t)
    ensures var s' := Do(s, a); u in s'.threads && s'.payload < |s'.heap| && MidwayOk(s', s'.threads[u])
  {
    MemoryOther(s, a);
    CopyOkOther(s, a, u);
    if a.Body? {
      NobodyHalfway(s, a.t, u);
    }
  }

  lemma MidwaySelf(s: State, a: Action)
    requires InMemory(s) && Enabled(s, a) && !a.CallerWrites? && a.t in s.threads && a.t in Do(s, a).threads
    requires PcFits(s.threads[a.t]) && MidwayOk(s, s.threads[a.t])
    requires a.Body? ==> !TakesEffect(s, Do(s, a), a.t)
    ensures var th, s' := s.threads[a.t], Do(s, a);
      && (s'.threads[a.t].pc.HalfRefreshed? && th.op.Refresh? ==> s'.after == th.op.after)
      && (s'.threads[a.t].pc.KeySeen? && th.op.Del? ==> th.op.key in s.heap[s.payload])
      && s'.threads[a.t].op == th.op
  {
  }

  lemma HalfwayOther(s: State, a: Action, t: Tid)
    requires LockInv(s) && InMemory(s) && Enabled(s, a) && t in s.threads
    requires a.Body? ==> !TakesEffect(s, Do(s, a), a.t)
    ensures s.threads[t].pc.HalfRefreshed? ==> t in Do(s, a).threads && Do(s, a).threads[t].pc.HalfRefreshed?
  {
    assert HoldsLock(s, t, s.threads[t]);
  }

  lemma Step(s: State, a: Action, c: Contents)
    requires Inv(s, c) && InMemory(s) && Enabled(s, a)
    ensures Inv(Do(s, a), c) && InMemory(Do(s, a))
  {
    LockStep(s, a);
    RecordStep(s, a);
    IdStep(s, a, Do(s, a));
    TimeStep(s, a, Do(s, a));
    AliasStep(s, a);
    AliasInMemory(Do(s, a));
    if a.Body? && TakesEffect(s, Do(s, a), a.t) {
      DataEffect(s, a.t, c);
    } else {
      DataOther(s, a, c);
    }
  }

  // -------------------------------------------------------------------- runs

  ghost predicate Next(s: State, a: Action, s': State) {
    InMemory(s) && Enabled(s, a) && s' == Do(s, a)
  }

  /** `states` is a run: it starts as New leaves the container, and every step is enabled. */
  ghost predicate Run(after: int, ttl: int, given: Payload, states: seq<State>, actions: seq<Action>) {
    && |states| == |actions| + 1
    && states[0] == Initial(after, ttl, given)
    && forall i {:trigger actions[i]} | 0 <= i < |actions| :: Next(states[i], actions[i], states[i + 1])
  }

  lemma RunKeepsInv(after: int, ttl: int, given: Payload, states: seq<State>, actions: seq<Action>, n: nat)
    requires Run(after, ttl, given, states, actions) && n <= |actions|
    ensures Inv(states[n], InitialContents(after, ttl, given)) && InMemory(states[n])
  {
    var c := InitialContents(after, ttl, given);
    InitialInv(after, ttl, given);
    forall s, a, s' | Next(s, a, s') && Inv(s, c) ensures Inv(s', c) && InMemory(s') {
      NextKeepsInv(s, a, s', c);
    }
    Runs.Invariant(Next, (s: State) => Inv(s, c) && InMemory(s), states, actions, 0, n);
  }

  lemma InitialInv(after: int, ttl: int, given: Payload)
    ensures Inv(Initial(after, ttl, given), InitialContents(after, ttl, given)) && InMemory(Initial(after, ttl, given))
  {
  }

  lemma NextKeepsInv(s: State, a: Action, s': State, c: Contents)
    requires Inv(s, c) && Next(s, a, s')
    ensures Inv(s', c) && InMemory(s')
  {
    Step(s, a, c);
  }

  /** The memory condition never stops a run: a state of a run admits every enabled action. */
  lemma RunsExtend(after: int, ttl: int, given: Payload, states: seq<State>, actions: seq<Action>, a: Action)
    requires Run(after, ttl, given, states, actions) && Enabled(states[|actions|], a)
    ensures InMemory(states[|actions|])
    ensures Run(after, ttl, given, states + [Do(states[|actions|], a)], actions + [a])
  {
    RunKeepsInv(after, ttl, given, states, actions, |actions|);
    RunAppend(after, ttl, given, states, actions, a, Do(states[|actions|], a));
  }

  lemma RunAppend(after: int, ttl: int, given: Payload, states: seq<State>, actions: seq<Action>, a: Action, s: State)
    requires Run(after, ttl, given, states, actions) && Next(states[|actions|], a, s)
    ensures Run(after, ttl, given, states + [s], actions + [a])
  {
    Runs.Append(Next, states, actions, a, s);
  }

  lemma InvLinearizes(s: State, c: Contents)
    requires Inv(s, c)
    ensures Linearizable(c, s.hist)
  {
    forall r, i, j | 0 <= r < |s.hist| && s.hist[r].Return? && 0 <= i < |s.effects| && 0 <= j < |s.effects|
      && s.effects[i].id == s.hist[r].id && r < s.effects[j].id ensures i < j
    {
      assert s.effects[i].at <= r < s.effects[j].id < s.effects[j].at;
    }
    assert KeepsRealTime(s.hist, s.effects);
  }

  /**
   Linearizability: for any number of threads and any interleaving, every history has an order of
   its operations that the sequential container explains and that keeps real-time order.
   */
  lemma EveryRunLinearizable(after: int, ttl: int, given: Payload, states: seq<State>, actions: seq<Action>)
    requires Run(after, ttl, given, states, actions)
    ensures Linearizable(InitialContents(after, ttl, given), states[|actions|].hist)
  {
    RunKeepsInv(after, ttl, given, states, actions, |actions|);
    InvLinearizes(states[|actions|], InitialContents(after, ttl, given));
  }

  // ------------------------------------------------------- right answers

  function Ops(effects: seq<Effect>): (ops: seq<Op>)
    ensures |ops| == |effects| && forall i | 0 <= i < |effects| :: ops[i] == effects[i].op
  {
    seq(|effects|, i requires 0 <= i < |effects| => effects[i].op)
  }

  /** Every answer in `order` is that of a container that holds what was last written before. */
  ghost predicate Right(given: Payload, order: seq<Effect>) {
    forall i | 0 <= i < |order| :: Answers(given, Ops(order[..i]), order[i].op, order[i].res)
  }

  lemma {:induction false} AfterIsApplyAll(c: Contents, effects: seq<Effect>)
    ensures After(c, effects) == ApplyAll(c, Ops(effects))
    decreases |effects|
  {
    if effects == [] {
    } else {
      AfterIsApplyAll(c, effects[..|effects| - 1]);
      assert Ops(effects)[..|effects| - 1] == Ops(effects[..|effects| - 1]);
    }
  }

  lemma LegalIsRight(c: Contents, order: seq<Effect>)
    requires Legal(c, order)
    ensures Right(c.payload, order)
  {
    forall i | 0 <= i < |order| ensures Answers(c.payload, Ops(order[..i]), order[i].op, order[i].res) {
      AfterIsApplyAll(c, order[..i]);
      AnswersAreRight(c, Ops(order[..i]), order[i].op);
    }
  }

  /**
   What the operations promise to their callers, for any interleaving: there is one order of them, in
   keeping with real time, in which every Get and Del sees the value of the last Set of its key that no
   Del or Clean undid, or the one given to New, and every Data sees all of these.
   */
  lemma EveryRunAnswersRight(after: int, ttl: int, given: Payload, states: seq<State>, actions: seq<Action>)
    requires Run(after, ttl, given, states, actions)
    ensures var hist := states[|actions|].hist;
      exists order: seq<Effect> ::
        Sound(hist, order) && Explains(hist, order) && KeepsRealTime(hist, order) && Right(given, order)
  {
    EveryRunLinearizable(after, ttl, given, states, actions);
    var c, hist := InitialContents(after, ttl, given), states[|actions|].hist;
    var order: seq<Effect> :|
      Sound(hist, order) && Legal(c, order) && Explains(hist, order) && KeepsRealTime(hist, order);
    LegalIsRight(c, order);
  }

  /**
   Memory itself holds what was last written by the operations that took effect, and the window of the
   last Refresh, unless one is half done.
   */
  lemma MemoryIsLastWrites(after: int, ttl: int, given: Payload, states: seq<State>, actions: seq<Action>, n: nat)
    requires Run(after, ttl, given, states, actions) && n <= |actions|
    ensures var s := states[n];
      && s.payload < |s.heap| && IsPayload(given, Ops(s.effects), s.heap[s.payload])
      && ((forall t | t in s.threads :: !s.threads[t].pc.HalfRefreshed?) ==>
            WindowIs(after, after + ttl, Ops(s.effects), s.after, s.before))
  {
    RunKeepsInv(after, ttl, given, states, actions, n);
    MemoryOfInv(states[n], InitialContents(after, ttl, given));
  }

  lemma MemoryOfInv(s: State, c: Contents)
    requires DataInv(s, c)
    ensures IsPayload(c.payload, Ops(s.effects), s.heap[s.payload])
    ensures (forall t | t in s.threads :: !s.threads[t].pc.HalfRefreshed?) ==>
      WindowIs(c.after, c.before, Ops(s.effects), s.after, s.before)
  {
    AfterIsApplyAll(c, s.effects);
    var payload := s.heap[s.payload];
    forall k, v ensures k in payload && payload[k] == v <==> Holds(c.payload, Ops(s.effects), k, v) {
      ContentsAreLastWrites(c, Ops(s.effects), k, v);
    }
    ContentsAreLastWrites(c, Ops(s.effects), Key(0), []);
  }

  /**
   Isolation: a map a caller can reach, the one given to New or a copy that Data returned, stays as it
   is for as long as no caller writes to it, whatever the container does in between.
   */
  lemma MapsAreNotShared(
      after: int, ttl: int, given: Payload, states: seq<State>, actions: seq<Action>, m: nat, n: nat, ref: Ref)
    requires Run(after, ttl, given, states, actions) && m <= n <= |actions| && ref in states[m].owned
    requires forall i | m <= i < n :: !(actions[i].CallerWrites? && actions[i].ref == ref)
    ensures ref < |states[m].heap| && Keeps(states[n], ref, states[m].heap)
  {
    RunKeepsInv(after, ttl, given, states, actions, m);
    var heap := states[m].heap;
    forall k: nat | m <= k < n && KeepsAt(states, ref, heap, k) ensures KeepsAt(states, ref, heap, k + 1) {
      StepIsolates(after, ttl, given, states, actions, k, ref);
    }
    Runs.Induction((k: nat) => KeepsAt(states, ref, heap, k), m, n);
  }

  ghost predicate KeepsAt(states: seq<State>, ref: Ref, heap: seq<Payload>, k: nat) {
    k < |states| && Keeps(states[k], ref, heap)
  }

  /** `ref` is still with the callers, and holds what it held in `heap`. */
  ghost predicate Keeps(s: State, ref: Ref, heap: seq<Payload>) {
    ref in s.owned && ref < |s.heap| && ref < |heap| && s.heap[ref] == heap[ref]
  }

  /** In particular the map that the caller gave to New. */
  lemma GivenMapIsKept(after: int, ttl: int, given: Payload, states: seq<State>, actions: seq<Action>, n: nat)
    requires Run(after, ttl, given, states, actions) && n <= |actions|
    requires forall i | 0 <= i < n :: !(actions[i].CallerWrites? && actions[i].ref == 0)
    ensures 0 < |states[n].heap| && states[n].heap[0] == given
  {
    MapsAreNotShared(after, ttl, given, states, actions, 0, n, 0);
  }

  /** Conversely, what callers write never reaches the container. */
  lemma CallersDoNotReach(after: int, ttl: int, given: Payload, states: seq<State>, actions: seq<Action>, n: nat)
    requires Run(after, ttl, given, states, actions) && n < |actions| && actions[n].CallerWrites?
    ensures var s, s' := states[n], states[n + 1];
      s'.payload == s.payload < |s.heap| && s.payload < |s'.heap| && s'.heap[s.payload] == s.heap[s.payload]
  {
    StepIsolates(after, ttl, given, states, actions, n, 0);
  }

  lemma StepIsolates(after: int, ttl: int, given: Payload, states: seq<State>, actions: seq<Action>, n: nat, ref: Ref)
    requires Run(after, ttl, given, states, actions) && n < |actions|
    ensures Isolated(states[n], actions[n], states[n + 1], ref)
  {
    RunKeepsInv(after, ttl, given, states, actions, n);
    assert Next(states[n], actions[n], states[n + 1]);
    OwnedStep(states[n], actions[n], ref);
  }

  ghost predicate Isolated(s: State, a: Action, s': State, ref: Ref) {
    && (ref in s.owned && ref < |s.heap| && !(a.CallerWrites? && a.ref == ref) ==>
          ref in s'.owned && ref < |s'.heap| && s'.heap[ref] == s.heap[ref])
    && (a.CallerWrites? ==>
          && s'.payload == s.payload && s.payload < |s.heap| && s.payload < |s'.heap|
          && s'.heap[s.payload] == s.heap[s.payload])
  }

  lemma OwnedStep(s: State, a: Action, ref: Ref)
    requires LockInv(s) && AliasInv(s) && InMemory(s) && Enabled(s, a)
    ensures Isolated(s, a, Do(s, a), ref)
  {
    if !a.CallerWrites? && a.t in s.threads {
      assert CopyOk(s.heap, s.payload, s.owned, s.threads[a.t]);
    }
  }

  /**
   Data returns the payload at one instant between its call and its return: the map it hands out was
   private until then and holds the sequential contents at the turn of its own effect.
   */
  lemma SnapshotOnReturn(after: int, ttl: int, given: Payload, states: seq<State>, actions: seq<Action>, n: nat, t: Tid)
    requires Run(after, ttl, given, states, actions) && n < |actions| && actions[n] == Leave(t)
    requires t in states[n].threads && states[n].threads[t].op.Data?
    ensures HandsOut(states[n], t, states[n + 1], InitialContents(after, ttl, given))
  {
    RunKeepsInv(after, ttl, given, states, actions, n);
    LeaveHandsOut(states[n], t, InitialContents(after, ttl, given));
  }

  /** The map that leaves with `t` was private, and holds the contents at the turn of its effect. */
  ghost predicate HandsOut(s: State, t: Tid, s': State, c: Contents) {
    && t in s.threads && s.threads[t].mine.Some?
    && var th, ref := s.threads[t], s.threads[t].mine.value;
       && ref < |s'.heap| && ref in s'.owned && ref !in s.owned
       && exists i :: 0 <= i < |s'.effects| && s'.effects[i].id == th.id && th.id < s'.effects[i].at < |s'.hist|
            && s'.heap[ref] == After(c, s'.effects[..i]).payload
  }

  lemma LeaveHandsOut(s: State, t: Tid, c: Contents)
    requires IdInv(s) && TimeInv(s) && DataInv(s, c) && AliasInv(s) && InMemory(s)
    requires Enabled(s, Leave(t)) && s.threads[t].op.Data?
    ensures HandsOut(s, t, Do(s, Leave(t)), c)
  {
    assert CopyOk(s.heap, s.payload, s.owned, s.threads[t]);
    var i := SnapshotEffect(s, t, c);
    var s' := Do(s, Leave(t));
    assert s'.effects == s.effects && s'.heap == s.heap && |s'.hist| == |s.hist| + 1;
  }

  lemma SnapshotEffect(s: State, t: Tid, c: Contents) returns (i: nat)
    requires IdInv(s) && TimeInv(s) && Legal(c, s.effects) && t in s.threads && s.threads[t].op.Data?
    requires s.threads[t].mine.Some? && s.threads[t].mine.value < |s.heap|
    requires TookEffect(s.threads[t].pc) && s.threads[t].pc.res == Copied(s.heap[s.threads[t].mine.value])
    ensures i < |s.effects| && s.effects[i].id == s.threads[t].id && s.threads[t].id < s.effects[i].at <= |s.hist|
    ensures s.heap[s.threads[t].mine.value] == After(c, s.effects[..i]).payload
  {
    var th := s.threads[t];
    i := EffectOf(s, t);
    CopiedContents(After(c, s.effects[..i]), s.heap[th.mine.value]);
  }

  lemma EffectOf(s: State, t: Tid) returns (i: nat)
    requires IdInv(s) && t in s.threads && TookEffect(s.threads[t].pc)
    ensures i < |s.effects| && s.effects[i].id == s.threads[t].id && s.effects[i].res == s.threads[t].pc.res
    ensures s.effects[i].op == s.threads[t].op
  {
    var th := s.threads[t];
    assert HasEffect(s, th.id, th.pc.res);
    i :| 0 <= i < |s.effects| && s.effects[i].id == th.id && s.effects[i].res == th.pc.res;
    assert s.hist[th.id] == Invoke(t, th.op);
  }

  lemma CopiedContents(c: Contents, payload: Payload)
    ensures Copied(payload) == Apply(c, Data).1 ==> payload == c.payload
  {
  }
}
