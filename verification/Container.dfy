/**
 The container of encrypted payloads: a validity window and a map behind a read-write lock. The
 sequential class states what each operation does; the concurrent protocol runs the same operations
 as interleaved steps of any number of threads and is proved linearizable.
 */
module Container {
  import opened Wrappers

  datatype Key = Key(id: nat)  // only ever compared
  type Payload = map<Key, Bytes>

  // --------------------------------------------------- sequential behaviour

  datatype Op =
    | Refresh(after: int, before: int)
    | Get(key: Key)
    | Set(key: Key, value: Bytes)
    | Del(key: Key)
    | Clean
    | Data

  datatype Result = Done | Missing | Found(value: Bytes) | Deleted(ok: bool) | Copied(payload: Payload)

  /** What a container holds: its validity window and its payload. */
  datatype Contents = Contents(after: int, before: int, payload: Payload)

  function Apply(c: Contents, op: Op): (Contents, Result) {
    match op
    case Refresh(a, b) => (c.(after := a, before := b), Done)
    case Get(k) => (c, if k in c.payload then Found(c.payload[k]) else Missing)
    case Set(k, v) => (c.(payload := c.payload[k := v]), Done)
    case Del(k) => (c.(payload := c.payload - {k}), Deleted(k in c.payload))
    case Clean => (c.(payload := map[]), Done)
    case Data => (c, Copied(c.payload))
  }

  // ------------------------------------------- what a container is for

  /** What happens to one key: Set binds it, Del and Clean unbind it, and nothing else touches it. */
  predicate Touches(op: Op, k: Key) {
    op.Clean? || (op.Set? && op.key == k) || (op.Del? && op.key == k)
  }

  predicate Untouched(ops: seq<Op>, from: nat, to: nat, k: Key) {
    forall l | 0 <= from <= l < to <= |ops| :: !Touches(ops[l], k)
  }

  /**
   After `ops`, on a container that started with `given`, key `k` is bound to `v`: by the last operation
   that touched it, or from the start.
   */
  predicate Holds(given: Payload, ops: seq<Op>, k: Key, v: Bytes) {
    || (exists j | 0 <= j < |ops| :: ops[j] == Op.Set(k, v) && Untouched(ops, j + 1, |ops|, k))
    || (k in given && given[k] == v && Untouched(ops, 0, |ops|, k))
  }

  /** The window after `ops`: that of the last Refresh, or the one from the start. */
  predicate WindowIs(after: int, before: int, ops: seq<Op>, a: int, b: int) {
    || (exists j | 0 <= j < |ops| :: ops[j] == Op.Refresh(a, b) && forall l | j < l < |ops| :: !ops[l].Refresh?)
    || (a == after && b == before && forall l | 0 <= l < |ops| :: !ops[l].Refresh?)
  }

  /** `res` is the right answer of `op` to the operations before it. */
  ghost predicate Answers(given: Payload, ops: seq<Op>, op: Op, res: Result) {
    match op
    case Get(k) =>
      && (res.Missing? || res.Found?)
      && (forall v :: res == Found(v) <==> Holds(given, ops, k, v))
    case Del(k) => res.Deleted? && (res.ok <==> exists v :: Holds(given, ops, k, v))
    case Data => res.Copied? && IsPayload(given, ops, res.payload)
    case _ => res.Done?
  }

  ghost predicate IsPayload(given: Payload, ops: seq<Op>, payload: Payload) {
    forall k, v :: k in payload && payload[k] == v <==> Holds(given, ops, k, v)
  }

  function ApplyAll(c: Contents, ops: seq<Op>): Contents {
    if ops == [] then c else Apply(ApplyAll(c, ops[..|ops| - 1]), ops[|ops| - 1]).0
  }

  lemma HoldsNext(given: Payload, ops: seq<Op>, k: Key, v: Bytes)
    requires ops != []
    ensures var init, last := ops[..|ops| - 1], ops[|ops| - 1];
      Holds(given, ops, k, v) <==> last == Op.Set(k, v) || (!Touches(last, k) && Holds(given, init, k, v))
  {
    var init, last := ops[..|ops| - 1], ops[|ops| - 1];
    assert forall l | 0 <= l < |init| :: init[l] == ops[l];
    if !Touches(last, k) {
      assert forall j | 0 <= j <= |init| :: Untouched(ops, j, |ops|, k) <==> Untouched(init, j, |init|, k);
    } else {
      assert forall j | 0 <= j <= |init| :: !Untouched(ops, j, |ops|, k);
    }
  }

  lemma WindowNext(after: int, before: int, ops: seq<Op>, a: int, b: int)
    requires ops != []
    ensures var init, last := ops[..|ops| - 1], ops[|ops| - 1];
      WindowIs(after, before, ops, a, b) <==>
        if last.Refresh? then last == Op.Refresh(a, b) else WindowIs(after, before, init, a, b)
  {
    var init, last := ops[..|ops| - 1], ops[|ops| - 1];
    assert forall l | 0 <= l < |init| :: init[l] == ops[l];
    if last.Refresh? {
      assert ops[|ops| - 1].Refresh?;
    }
  }

  /** The sequential container holds what was last written, whatever was done with it. */
  lemma {:induction false} ContentsAreLastWrites(c: Contents, ops: seq<Op>, k: Key, v: Bytes)
    ensures var p := ApplyAll(c, ops).payload; k in p && p[k] == v <==> Holds(c.payload, ops, k, v)
    ensures WindowIs(c.after, c.before, ops, ApplyAll(c, ops).after, ApplyAll(c, ops).before)
    decreases |ops|
  {
    if ops == [] {
    } else {
      ContentsAreLastWrites(c, ops[..|ops| - 1], k, v);
      HoldsNext(c.payload, ops, k, v);
      WindowNext(c.after, c.before, ops, ApplyAll(c, ops).after, ApplyAll(c, ops).before);
    }
  }

  /** And so its answers are the right ones. */
  lemma AnswersAreRight(c: Contents, ops: seq<Op>, op: Op)
    ensures Answers(c.payload, ops, op, Apply(ApplyAll(c, ops), op).1)
  {
    var p := ApplyAll(c, ops).payload;
    forall k, v ensures k in p && p[k] == v <==> Holds(c.payload, ops, k, v) {
      ContentsAreLastWrites(c, ops, k, v);
    }
    match op {
      case Get(k) => assert k in p ==> Holds(c.payload, ops, k, p[k]);
      case Del(k) => assert k in p ==> Holds(c.payload, ops, k, p[k]);
      case _ =>
    }
  }

  const VERSION := 0
  datatype Validity = Valid | Incompatible(want: int, got: int) | NotYet(bound: int, now: int)
    | Expired(bound: int, now: int)

  /** A map in memory, which several variables can refer to. */
  class GoMap {
    var entries: Payload

    constructor ()
      ensures entries == map[]
    {
      entries := map[];
    }

    method Put(key: Key, value: Bytes)
      modifies this
      ensures entries == old(entries)[key := value]
    {
      entries := entries[key := value];
    }

    method Delete(key: Key)
      modifies this
      ensures entries == old(entries) - {key}
    {
      entries := entries - {key};
    }

    /** The range loop that fills a new map, in whatever order the keys come. */
    method Copy() returns (res: GoMap)
      ensures fresh(res) && res.entries == entries
    {
      res := new GoMap();
      var left := entries.Keys;
      while left != {}
        invariant left <= entries.Keys && res.entries == entries - left
        decreases |left|
      {
        var k :| k in left;
        CopiedNext(entries, left, k);
        res.Put(k, entries[k]);
        left := left - {k};
      }
      assert entries - {} == entries;
    }
  }

  lemma CopiedNext(entries: Payload, left: set<Key>, k: Key)
    requires k in left && left <= entries.Keys
    ensures (entries - left)[k := entries[k]] == entries - (left - {k})
  {
  }

  /** The container as one goroutine sees it. */
  class Store {
    var version: int
    var validAfter: int
    var validBefore: int
    var payload: GoMap

    function Value(): Contents
      reads this, payload
    {
      Contents(validAfter, validBefore, payload.entries)
    }

    /** New copies the given map, which may be nil, so that nobody else has the container's own. */
    constructor (validAfter: int, ttl: int, given: GoMap?)
      ensures version == VERSION && fresh(payload)
      ensures Value() == Contents(validAfter, validAfter + ttl, if given == null then map[] else given.entries)
    {
      var source := given;
      if source == null {
        source := new GoMap();
      }
      var p := source.Copy();
      version, this.validAfter, validBefore, payload := VERSION, validAfter, validAfter + ttl, p;
    }

    method Refresh(after: int, before: int)
      modifies this`validAfter, this`validBefore
      ensures Value() == Apply(old(Value()), Op.Refresh(after, before)).0
      ensures validAfter == after && validBefore == before
    {
      validAfter := after;
      validBefore := before;
    }

    method Get(key: Key) returns (r: Result)
      ensures (Value(), r) == Apply(Value(), Op.Get(key))
      ensures r == if key in payload.entries then Found(payload.entries[key]) else Missing
    {
      if key !in payload.entries {
        return Missing;
      }
      return Found(payload.entries[key]);
    }

    method Set(key: Key, value: Bytes)
      modifies payload
      ensures Value() == Apply(old(Value()), Op.Set(key, value)).0
      ensures payload.entries.Keys == old(payload.entries.Keys) + {key} && payload.entries[key] == value
      ensures forall k | k in old(payload.entries) && k != key :: payload.entries[k] == old(payload.entries[k])
    {
      payload.Put(key, value);
    }

    method Del(key: Key) returns (ok: bool)
      modifies payload
      ensures (Value(), Deleted(ok)) == Apply(old(Value()), Op.Del(key))
      ensures ok <==> key in old(payload.entries)
      ensures payload.entries.Keys == old(payload.entries.Keys) - {key}
      ensures forall k | k in payload.entries :: payload.entries[k] == old(payload.entries[k])
    {
      if key in payload.entries {
        payload.Delete(key);
        return true;
      } else {
        assert payload.entries - {key} == payload.entries;
        return false;
      }
    }

    /** The container gets a new map; the old one stays as it is. */
    method Clean()
      modifies this`payload
      ensures fresh(payload) && Value() == Apply(old(Value()), Op.Clean).0
      ensures payload.entries == map[]
    {
      payload := new GoMap();
    }

    /** A copy that the container does not keep. */
    method Data() returns (res: GoMap)
      ensures fresh(res) && Copied(res.entries) == Apply(Value(), Op.Data).1
      ensures res.entries == payload.entries
    {
      res := payload.Copy();
    }

    /** A container is valid strictly inside its window, if its version is the one known. */
    method Validate(now: int) returns (r: Validity)
      ensures r == Valid <==> version == VERSION && validAfter < now < validBefore
      ensures r == Incompatible(VERSION, version) <==> version != VERSION
      ensures r == NotYet(validAfter, now) <==> version == VERSION && now <= validAfter
      ensures r == Expired(validBefore, now) <==> version == VERSION && validAfter < now && now >= validBefore
    {
      if version != VERSION {
        return Incompatible(VERSION, version);
      }
      if !(now > validAfter) {
        return NotYet(validAfter, now);
      }
      if !(now < validBefore) {
        return Expired(validBefore, now);
      }
      return Valid;
    }
  }
}
