/**
 Reading a mounted file: the window of one read in 64-bit offsets, what a client that reads to the
 end sees, and the life of the locked buffers that reads hand to the server. There is no enclave for
 an empty content, so the first call on such a file dereferences nil and the process ends.
 */
module FileReads {
  import opened Placing
  import opened Wrappers
  import Runs

  const TWO_63 := 0x8000_0000_0000_0000

  /** Two's complement on 64 bits. */
  function Wrap(x: int): int {
    (x + TWO_63) % (2 * TWO_63) - TWO_63
  }

  predicate Int64(x: int) { -TWO_63 <= x < TWO_63 }

  // ------------------------------------------------------------------ windows

  /** Where a read of `len` bytes at `off` ends. */
  function EndOf(off: int, len: nat, size: nat): int {
    var end := Wrap(off + len);
    if end > size then size else end
  }

  /** The bounds a Go slice expression demands; outside them it panics. */
  predicate InBounds(off: int, end: int, size: nat) { 0 <= off <= end <= size }

  /** What the client gets for one read; None is a panic. */
  function Window(content: Bytes, off: int, len: nat): Option<Bytes> {
    var end := EndOf(off, len, |content|);
    if content != [] && InBounds(off, end, |content|) then Some(content[off..end]) else None
  }

  /**
   A read is answered exactly for a file that is not empty, an offset up to its end and a request that
   does not overflow; then the answer is the bytes asked for, cut at the end of the file.
   */
  lemma WindowExactly(content: Bytes, off: int, len: nat)
    requires Int64(off) && Int64(len) && Int64(|content|)
    ensures var end := if off + len < |content| then off + len else |content|;
      Window(content, off, len) ==
        if content != [] && 0 <= off <= |content| && off + len < TWO_63 then Some(content[off..end]) else None
  {
    if off + len < TWO_63 {
      assert Wrap(off + len) == off + len;
    } else {
      assert Wrap(off + len) == off + len - 2 * TWO_63;
    }
  }

  /** A read that starts past the end panics without any overflow. */
  lemma PastEndCounterexample(content: Bytes)
    requires |content| == 3
    ensures Window(content, 5, 4) == None && 5 + 4 < TWO_63
  {
    WindowExactly(content, 5, 4);
  }

  /** A client that reads on from `off` in requests of `len` bytes until nothing more comes. */
  function ReadOn(content: Bytes, off: nat, len: nat): Option<Bytes>
    requires len > 0 && off <= |content|
    decreases |content| - off
  {
    var w := Window(content, off, len);
    if w.None? then None
    else if w.value == [] then Some([])
    else
      var end := off + |w.value|;
      if end > |content| then None
      else
        var rest := ReadOn(content, end, len);
        if rest.None? then None else Some(w.value + rest.value)
  }

  /**
   Reading on from the start yields the content, whatever the request size, exactly when there is one
   and the request at its end does not overflow; otherwise some read panics.
   */
  lemma {:induction false} ReadOnCompletes(content: Bytes, off: nat, len: nat)
    requires len > 0 && off <= |content| && Int64(len) && Int64(|content|)
    ensures ReadOn(content, off, len) ==
      if content != [] && |content| + len < TWO_63 then Some(content[off..]) else None
    decreases |content| - off
  {
    WindowExactly(content, off, len);
    if content == [] || off + len >= TWO_63 || off == |content| {
    } else {
      var end := if off + len < |content| then off + len else |content|;
      ReadOnCompletes(content, end, len);
      assert content[off..end] + content[end..] == content[off..];
    }
  }

  // ----------------------------------------------------------------- objects

  /** What an enclave can hold. */
  type Content = b: Bytes | b != [] witness [0]

  class Enclave {
    const data: Content

    constructor (data: Content)
      ensures this.data == data
    {
      this.data := data;
    }
  }

  /** memguard gives nil for nothing. */
  method NewEnclave(src: Bytes) returns (e: Enclave?)
    ensures e == null <==> src == []
    ensures e != null ==> fresh(e) && e.data == src
  {
    if src == [] {
      return null;
    }
    e := new Enclave(src);
  }

  /** An opened enclave; once destroyed it has no bytes. */
  class LockedBuffer {
    const data: Bytes
    var live: bool

    constructor (data: Bytes)
      ensures this.data == data && live
    {
      this.data, live := data, true;
    }

    function Contents(): Bytes
      reads this
    {
      if live then data else []
    }

    method Destroy()
      modifies this
      ensures !live
    {
      live := false;
    }
  }

  class ReadResult {
    const buffer: LockedBuffer
    const offset: int
    const end: int

    constructor (buffer: LockedBuffer, offset: int, end: int)
      ensures this.buffer == buffer && this.offset == offset && this.end == end
    {
      this.buffer, this.offset, this.end := buffer, offset, end;
    }

    /** The result of a read of `len` bytes at `off` from a file with this content. */
    ghost predicate Serves(content: Bytes, off: int, len: nat) {
      buffer.data == content != [] && offset == off && end == EndOf(off, len, |content|)
    }

    method Done()
      modifies buffer
      ensures !buffer.live
    {
      buffer.Destroy();
    }

    /**
     Before Done the bytes are the window of the read that was asked for; after it none of the
     content comes out. None stands for the panic of a slice expression out of range.
     */
    method Bytes(ghost content: Wrappers.Bytes, ghost off: int, ghost len: nat) returns (r: Option<Wrappers.Bytes>)
      requires Serves(content, off, len)
      ensures buffer.live ==> r == Window(content, off, len)
      ensures !buffer.live ==> r.None? || r == Some([])
    {
      var bytes := buffer.Contents();
      if !InBounds(offset, end, |bytes|) {
        return None;
      }
      return Some(bytes[offset..end]);
    }
  }

  /** How a call ends; a crash is the end of the process. */
  datatype Status = OK | EIO | Crash

  class File {
    const attr: Attr
    const content: Enclave?

    constructor (attr: Attr, plain: Bytes)
      ensures this.attr == attr && Plain() == plain
    {
      var enclave := NewEnclave(plain);
      this.attr, content := attr, enclave;
    }

    ghost function Plain(): Bytes {
      if content == null then [] else content.data
    }

    /** Hands out a live buffer with the window asked for; EIO when the enclave does not open. */
    method Read(len: nat, off: int, opens: bool) returns (status: Status, r: ReadResult?)
      ensures status == if Plain() == [] then Crash else if opens then OK else EIO
      ensures r != null <==> status == OK
      ensures r != null ==> fresh(r) && fresh(r.buffer) && r.buffer.live && r.Serves(Plain(), off, len)
    {
      if content == null {
        return Crash, null;
      }
      if !opens {
        return EIO, null;
      }
      var buf := new LockedBuffer(content.data);
      var end := Wrap(off + len);
      if end > |buf.Contents()| {
        end := |buf.Contents()|;
      }
      r := new ReadResult(buf, off, end);
      status := OK;
    }

    /** The sidecar's size never shows: the size is that of the content. The buffer does not outlive the call. */
    method Getattr(opens: bool) returns (status: Status, out: Option<Attr>, ghost used: LockedBuffer?)
      ensures status == if Plain() == [] then Crash else if opens then OK else EIO
      ensures out == if status == OK then Some(attr.(size := |Plain()|)) else None
      ensures status == OK ==> used != null && fresh(used) && !used.live
    {
      if content == null {
        return Crash, None, null;
      }
      if !opens {
        return EIO, None, null;
      }
      var buf := new LockedBuffer(content.data);
      var a := attr.(size := |buf.Contents()|);
      buf.Destroy();
      return OK, Some(a), buf;
    }
  }

  // -------------------------------------------------------- buffer lifetimes

  type Tid = nat
  type Buf = nat

  datatype Op = Reading(off: int, len: nat) | Stating
  datatype Pc = Waiting | Locked | Opened(buf: Buf) | Prepared(buf: Buf) | Leaving
  datatype Thread = Thread(op: Op, pc: Pc)

  /** A result that the server holds: the read it answers, and whether its bytes were taken. */
  datatype Held = Held(off: int, len: nat, taken: bool)

  /**
   Buffers are numbered as they are allocated. `undone` are the results whose Done is still to come, by
   their buffers; `destroyed` records every destruction. The server takes the bytes of each result once
   and then calls Done; `always` says whether it does so for an answer without bytes too, which the
   go-fuse server in use does not.
   */
  datatype State = State(
    content: Bytes, always: bool, crashed: bool, next: nat, live: set<Buf>, undone: map<Buf, Held>,
    destroyed: seq<Buf>, mutex: Option<Tid>, threads: map<Tid, Thread>)

  function Initial(content: Bytes, always: bool): State {
    State(content, always, false, 0, {}, map[], [], None, map[])
  }

  datatype Action =
    | Begin(t: Tid, op: Op) | Lock(t: Tid) | Open(t: Tid, ok: bool) | Prepare(t: Tid)
    | DestroyOwn(t: Tid) | Leave(t: Tid)
    | TakeBytes(buf: Buf) | Finish(buf: Buf)

  /** What the bytes of a result are; None is a panic. */
  function Answer(s: State, b: Buf): Option<Bytes>
    requires b in s.undone
  {
    Window(s.content, s.undone[b].off, s.undone[b].len)
  }

  predicate Enabled(s: State, a: Action) {
    !s.crashed &&
    match a
    case Begin(t, _) => t !in s.threads
    case Lock(t) => t in s.threads && s.threads[t].pc == Waiting && s.mutex == None
    case Open(t, _) => t in s.threads && s.threads[t].pc == Locked
    case Prepare(t) => t in s.threads && s.threads[t].pc.Opened?
    case DestroyOwn(t) => t in s.threads && s.threads[t].pc.Prepared? && s.threads[t].op == Stating
    case Leave(t) =>
      t in s.threads && (s.threads[t].pc == Leaving || (s.threads[t].pc.Prepared? && s.threads[t].op.Reading?))
    case TakeBytes(b) => b in s.undone && !s.undone[b].taken
    case Finish(b) => b in s.undone && s.undone[b].taken && (s.always || Answer(s, b) != Some([]))
  }

  function Goto(s: State, t: Tid, pc: Pc): State
    requires t in s.threads
  {
    s.(threads := s.threads[t := s.threads[t].(pc := pc)])
  }

  function Destroy(s: State, b: Buf): State {
    s.(live := s.live - {b}, destroyed := s.destroyed + [b])
  }

  function Do(s: State, a: Action): State
    requires Enabled(s, a)
  {
    match a
    case Begin(t, op) => s.(threads := s.threads[t := Thread(op, Waiting)])
    case Lock(t) => Goto(s, t, Locked).(mutex := Some(t))
    case Open(t, ok) =>
      if s.content == [] then s.(crashed := true)
      else if ok then Goto(s, t, Opened(s.next)).(next := s.next + 1, live := s.live + {s.next})
      else Goto(s, t, Leaving)
    case Prepare(t) => Goto(s, t, Prepared(s.threads[t].pc.buf))
    case DestroyOwn(t) => Goto(Destroy(s, s.threads[t].pc.buf), t, Leaving)
    case Leave(t) =>
      var th, s' := s.threads[t], s.(mutex := None, threads := s.threads - {t});
      if th.pc.Prepared? then s'.(undone := s.undone[th.pc.buf := Held(th.op.off, th.op.len, false)]) else s'
    case TakeBytes(b) =>
      if Answer(s, b).None? then s.(crashed := true)
      else s.(undone := s.undone[b := s.undone[b].(taken := true)])
    case Finish(b) => Destroy(s, b).(undone := s.undone - {b})
  }

  /** The steps that end the process: the enclave is nil, or the bytes are out of range. */
  predicate Crashes(s: State, a: Action) {
    || (a.Open? && s.content == [])
    || (a.TakeBytes? && a.buf in s.undone && Answer(s, a.buf).None?)
  }

  /** The buffer of the operation that holds the mutex, if it has one. */
  function InHand(s: State): set<Buf> {
    if s.mutex.Some? && s.mutex.value in s.threads && HasBuffer(s.threads[s.mutex.value].pc)
    then {s.threads[s.mutex.value].pc.buf} else {}
  }

  predicate HasBuffer(pc: Pc) { pc.Opened? || pc.Prepared? }

  ghost predicate Inv(s: State) {
    && (forall t | t in s.threads :: s.threads[t].pc == Waiting <==> s.mutex != Some(t))
    && (s.mutex.Some? ==> s.mutex.value in s.threads)
    && s.live == s.undone.Keys + InHand(s)
    && s.undone.Keys !! InHand(s)
    && (forall b | b in s.live :: b < s.next)
    && (forall i | 0 <= i < |s.destroyed| :: s.destroyed[i] < s.next && s.destroyed[i] !in s.live)
    && (forall i, j | 0 <= i < j < |s.destroyed| :: s.destroyed[i] != s.destroyed[j])
  }

  lemma Step(s: State, a: Action)
    requires Inv(s) && Enabled(s, a)
    ensures Inv(Do(s, a))
  {
    if a.TakeBytes? || a.Finish? {
      ServerStep(s, a);
    } else if a.t in s.threads {
      assert s.threads[a.t].pc != Waiting ==> s.mutex == Some(a.t);
      CallStep(s, a);
    } else {
      CallStep(s, a);
    }
  }

  lemma ServerStep(s: State, a: Action)
    requires Inv(s) && Enabled(s, a) && (a.TakeBytes? || a.Finish?)
    ensures Inv(Do(s, a))
  {
    assert a.TakeBytes? ==> Do(s, a).undone.Keys == s.undone.Keys;
  }

  lemma CallStep(s: State, a: Action)
    requires Inv(s) && Enabled(s, a) && !a.TakeBytes? && !a.Finish?
    requires a.t in s.threads && s.threads[a.t].pc != Waiting ==> s.mutex == Some(a.t)
    ensures Inv(Do(s, a))
  {
  }

  ghost predicate Next(s: State, a: Action, s': State) {
    Enabled(s, a) && s' == Do(s, a)
  }

  ghost predicate Run(content: Bytes, always: bool, states: seq<State>, actions: seq<Action>) {
    && |states| == |actions| + 1 && states[0] == Initial(content, always)
    && forall i {:trigger actions[i]} | 0 <= i < |actions| :: Next(states[i], actions[i], states[i + 1])
  }

  lemma RunKeepsInv(content: Bytes, always: bool, states: seq<State>, actions: seq<Action>, n: nat)
    requires Run(content, always, states, actions) && n <= |actions|
    ensures Inv(states[n]) && states[n].content == content && states[n].always == always
  {
    forall s, a, s' | Next(s, a, s') && Inv(s) ensures Inv(s') && s'.content == s.content && s'.always == s.always {
      Step(s, a);
    }
    var inv := (s: State) => Inv(s) && s.content == content && s.always == always;
    Runs.Invariant(Next, inv, states, actions, 0, n);
  }

  /**
   In every run: the live buffers are exactly those of undone results and of the one operation inside
   the mutex, no buffer is destroyed twice, and the bytes of an undone result are still there.
   */
  lemma BuffersLiveUntilDone(content: Bytes, always: bool, states: seq<State>, actions: seq<Action>, n: nat)
    requires Run(content, always, states, actions) && n <= |actions|
    ensures var s := states[n];
      && s.live == s.undone.Keys + InHand(s) && s.undone.Keys !! InHand(s)
      && (forall i, j | 0 <= i < j < |s.destroyed| :: s.destroyed[i] != s.destroyed[j])
      && (forall i | 0 <= i < |s.destroyed| :: s.destroyed[i] !in s.live)
      && (n < |actions| && actions[n].TakeBytes? ==> actions[n].buf in s.live && actions[n].buf !in s.destroyed)
  {
    RunKeepsInv(content, always, states, actions, n);
    if n < |actions| && actions[n].TakeBytes? {
      assert Next(states[n], actions[n], states[n + 1]);
    }
  }

  // ----------------------------------------------------------------- crashes

  /**
   A run has crashed exactly if it opened a file without content, or took the bytes of a read that
   WindowExactly does not answer.
   */
  lemma {:induction false} CrashesExactly(
      content: Bytes, always: bool, states: seq<State>, actions: seq<Action>, n: nat)
    requires Run(content, always, states, actions) && n <= |actions|
    ensures states[n].crashed <==> exists i :: 0 <= i < n && Crashes(states[i], actions[i])
    decreases n
  {
    if n == 0 {
    } else {
      CrashesExactly(content, always, states, actions, n - 1);
      assert Next(states[n - 1], actions[n - 1], states[n]);
      CrashNext(states[n - 1], actions[n - 1]);
    }
  }

  lemma CrashNext(s: State, a: Action)
    requires Enabled(s, a)
    ensures Do(s, a).crashed <==> Crashes(s, a)
  {
  }

  /** A read that a client can make without harm. */
  predicate Harmless(content: Bytes, op: Op) {
    op.Reading? ==> Window(content, op.off, op.len).Some?
  }

  /** So a file with content never crashes the process if all its reads are harmless. */
  lemma HarmlessNeverCrash(content: Bytes, always: bool, states: seq<State>, actions: seq<Action>, n: nat)
    requires Run(content, always, states, actions) && n <= |actions| && content != []
    requires forall a | a in actions && a.Begin? :: Harmless(content, a.op)
    ensures !states[n].crashed
  {
    var next := (s: State, a: Action, s': State) => Next(s, a, s') && (a.Begin? ==> Harmless(content, a.op));
    forall s, a, s' | next(s, a, s') && AllHarmless(s, content) ensures AllHarmless(s', content) {
      HarmlessNext(s, a, content);
    }
    Runs.Invariant(next, (s: State) => AllHarmless(s, content), states, actions, 0, n);
  }

  ghost predicate AllHarmless(s: State, content: Bytes) {
    && !s.crashed && s.content == content != []
    && (forall t | t in s.threads :: Harmless(content, s.threads[t].op))
    && (forall b | b in s.undone :: Answer(s, b).Some?)
  }

  lemma HarmlessNext(s: State, a: Action, content: Bytes)
    requires AllHarmless(s, content) && Enabled(s, a) && (a.Begin? ==> Harmless(content, a.op))
    ensures AllHarmless(Do(s, a), content)
  {
  }

  // ------------------------------------------------------------------- leaks

  /** When no operation is in progress and every result is done, every buffer has been destroyed. */
  lemma NothingLeaks(content: Bytes, always: bool, states: seq<State>, actions: seq<Action>, n: nat)
    requires Run(content, always, states, actions) && n <= |actions|
    requires states[n].threads == map[] && states[n].undone == map[]
    ensures states[n].live == {} && forall b: Buf :: b < states[n].next ==> b in states[n].destroyed
  {
    RunKeepsInv(content, always, states, actions, n);
    AllAccountedFor(content, always, states, actions, n);
    assert InHand(states[n]) == {};
  }

  lemma AllAccountedFor(content: Bytes, always: bool, states: seq<State>, actions: seq<Action>, n: nat)
    requires Run(content, always, states, actions) && n <= |actions|
    ensures Accounted(states[n])
  {
    forall s, a, s' | Next(s, a, s') && Inv(s) && Accounted(s) ensures Inv(s') && Accounted(s') {
      Step(s, a);
      AccountedStep(s, a);
    }
    Runs.Invariant(Next, (s: State) => Inv(s) && Accounted(s), states, actions, 0, n);
  }

  ghost predicate Accounted(s: State) {
    forall b: Buf :: b < s.next ==> b in s.live || b in s.destroyed
  }

  lemma AccountedStep(s: State, a: Action)
    requires Inv(s) && Accounted(s) && Enabled(s, a)
    ensures Accounted(Do(s, a))
  {
    var s' := Do(s, a);
    assert forall i | 0 <= i < |s.destroyed| :: s'.destroyed[i] == s.destroyed[i];
    forall b: Buf | b < s'.next ensures b in s'.live || b in s'.destroyed {
      if b < s.next && b in s.destroyed {
        var i :| 0 <= i < |s.destroyed| && s.destroyed[i] == b;
        assert s'.destroyed[i] == b;
      } else if b in s.live && b !in s'.live {
        assert s'.destroyed[|s.destroyed|] == b;
      }
    }
  }

  /** No call is in progress and the server has nothing left to do with any result. */
  ghost predicate AtRest(s: State) {
    && !s.crashed && s.threads == map[]
    && forall b | b in s.undone :: !Enabled(s, TakeBytes(b)) && !Enabled(s, Finish(b))
  }

  /** The server takes an answer without bytes. */
  predicate TakesNothing(s: State, a: Action) {
    a.TakeBytes? && a.buf in s.undone && Answer(s, a.buf) == Some([])
  }

  /**
   A run that has come to rest has destroyed every buffer exactly if the server calls Done in any case,
   or no read was answered without bytes. The last read of a client that reads to the end always is.
   */
  lemma LeaksExactly(content: Bytes, always: bool, states: seq<State>, actions: seq<Action>, n: nat)
    requires Run(content, always, states, actions) && n <= |actions| && AtRest(states[n])
    ensures states[n].live == {} <==> always || forall i | 0 <= i < n :: !TakesNothing(states[i], actions[i])
  {
    var s := states[n];
    RunKeepsInv(content, always, states, actions, n);
    assert InHand(s) == {} && s.live == s.undone.Keys;
    if b :| b in s.undone {
      assert s.undone[b].taken && !always && Answer(s, b) == Some([]);
      var i := TakenBefore(content, always, states, actions, n, b);
      assert TakesNothing(states[i], actions[i]);
    }
    if !always {
      forall i | 0 <= i < n && TakesNothing(states[i], actions[i]) ensures s.live != {} {
        StaysForever(content, always, states, actions, i, n);
      }
    }
  }

  /** The bytes of a result that are taken were taken by some step, from the same read. */
  lemma {:induction false} TakenBefore(
      content: Bytes, always: bool, states: seq<State>, actions: seq<Action>, n: nat, b: Buf) returns (i: nat)
    requires Run(content, always, states, actions) && n <= |actions|
    requires b in states[n].undone && states[n].undone[b].taken
    ensures i < n && actions[i] == TakeBytes(b)
    ensures b in states[i].undone && Answer(states[i], b) == Answer(states[n], b)
    decreases n
  {
    var s, a := states[n - 1], actions[n - 1];
    assert Next(s, a, states[n]);
    if a == TakeBytes(b) {
      i := n - 1;
    } else {
      i := TakenBefore(content, always, states, actions, n - 1, b);
    }
  }

  /** A result without bytes is never done. */
  ghost predicate Forgotten(s: State, b: Buf) {
    !s.always && b in s.undone && s.undone[b].taken && Answer(s, b) == Some([])
  }

  lemma ForgottenNext(s: State, a: Action, b: Buf)
    requires Inv(s) && Forgotten(s, b) && Enabled(s, a)
    ensures Forgotten(Do(s, a), b)
  {
  }

  lemma StaysForever(content: Bytes, always: bool, states: seq<State>, actions: seq<Action>, i: nat, n: nat)
    requires Run(content, always, states, actions) && !always && i < n <= |actions|
    requires TakesNothing(states[i], actions[i])
    ensures actions[i].buf in states[n].undone && actions[i].buf in states[n].live
  {
    var b := actions[i].buf;
    RunKeepsInv(content, always, states, actions, i);
    RunKeepsInv(content, always, states, actions, i + 1);
    assert Next(states[i], actions[i], states[i + 1]);
    forall s, a, s' | Next(s, a, s') && Inv(s) && Forgotten(s, b) ensures Inv(s') && Forgotten(s', b) {
      Step(s, a);
      ForgottenNext(s, a, b);
    }
    Runs.Invariant(Next, (s: State) => Inv(s) && Forgotten(s, b), states, actions, i + 1, n);
  }

  // ---------------------------------------------------------------- examples

  /** One read from the call to the bytes. */
  function ReadScript(off: int, len: nat): seq<Action> {
    [Begin(0, Reading(off, len)), Lock(0), Open(0, true), Prepare(0), Leave(0), TakeBytes(0)]
  }

  /** The states of one read of a file with content. */
  ghost function OneRead(content: Bytes, off: int, len: nat, k: nat): State
    requires k <= 5
  {
    var s := Initial(content, false);
    var th := Thread(Reading(off, len), Waiting);
    if k == 0 then s
    else if k == 1 then s.(threads := map[0 := th])
    else if k == 2 then s.(threads := map[0 := th.(pc := Locked)], mutex := Some(0))
    else if k == 3 then s.(threads := map[0 := th.(pc := Opened(0))], mutex := Some(0), next := 1, live := {0})
    else if k == 4 then s.(threads := map[0 := th.(pc := Prepared(0))], mutex := Some(0), next := 1, live := {0})
    else s.(next := 1, live := {0}, undone := map[0 := Held(off, len, false)])
  }

  lemma OneReadNext(content: Bytes, off: int, len: nat, k: nat)
    requires content != [] && k < 5
    ensures Next(OneRead(content, off, len, k), ReadScript(off, len)[k], OneRead(content, off, len, k + 1))
  {
    var s, s' := OneRead(content, off, len, k), OneRead(content, off, len, k + 1);
    assert k == 4 ==> s.threads - {0} == map[];
    assert k == 2 ==> {} + {0} == {0 as nat};
  }

  lemma ReadRun(content: Bytes, off: int, len: nat) returns (states: seq<State>, actions: seq<Action>)
    requires content != []
    ensures Run(content, false, states, actions) && |actions| == 6 && actions[5] == TakeBytes(0)
    ensures states[5] == OneRead(content, off, len, 5) && states[6] == Do(states[5], TakeBytes(0))
  {
    actions := ReadScript(off, len);
    var last := Do(OneRead(content, off, len, 5), TakeBytes(0));
    states := seq(7, k requires 0 <= k < 7 => if k < 6 then OneRead(content, off, len, k) else last);
    forall i | 0 <= i < 6 ensures Next(states[i], actions[i], states[i + 1]) {
      if i < 5 {
        OneReadNext(content, off, len, i);
      }
    }
  }

  /** A client that reads at offset 5 of three bytes ends the process. */
  lemma PastEndCrashes(content: Bytes) returns (states: seq<State>, actions: seq<Action>)
    requires |content| == 3
    ensures Run(content, false, states, actions) && states[|actions|].crashed
  {
    states, actions := ReadRun(content, 5, 4);
    PastEndCounterexample(content);
  }

  /** A client that reads on at the end of three bytes leaves a buffer behind. */
  lemma EndOfFileLeaks(content: Bytes) returns (states: seq<State>, actions: seq<Action>)
    requires |content| == 3
    ensures Run(content, false, states, actions) && AtRest(states[|actions|]) && states[|actions|].live == {0}
  {
    states, actions := ReadRun(content, 3, 4);
    WindowExactly(content, 3, 4);
    assert content[3..3] == [];
  }
}
