/**
 The struct walker: a recursive walk that hands every exported field to a callback together with
 the path to it. The path is a Go slice, so `append` writes into arrays that siblings and ancestors
 share; the walk is proved against a flat run over the pre-order list of fields.
 */
module Walker {
  /** A reflected value: a pointer, a struct, or anything the walk does not look into. */
  datatype Value = Scalar(id: int) | NilPointer | Pointer(elem: Value) | Struct(fields: seq<Field>)
  datatype Field = Field(name: string, exported: bool, value: Value)

  /** What a callback or the walk returns; only the two sentinels are told apart. */
  datatype Error = NoError | SkipBranch | StopIteration | UnexpectedKind | Failure(code: int)

  /** One invocation of the callback. */
  datatype Call = Call(value: Value, path: seq<string>)

  /** A callback with state of its own, which reads the path during the call only. */
  type Callback<!S> = (S, Call) -> (S, Error)

  // ---------------------------------------------------------- specification

  /** An entry of the pre-order list, with the number of entries that belong to its subtree. */
  datatype Visit = Visit(call: Call, below: nat)

  function Visits(v: Value, path: seq<string>): seq<Visit>
    decreases v, 1
  {
    var inner := Inside(v, path);
    if path == [] then inner else [Visit(Call(v, path), |inner|)] + inner
  }

  /** A pointer's target is visited under the pointer's own path. */
  function Inside(v: Value, path: seq<string>): seq<Visit>
    decreases v, 0
  {
    match v
    case Pointer(elem) => Visits(elem, path)
    case Struct(fields) => FieldVisits(fields, path)
    case _ => []
  }

  function FieldVisits(fields: seq<Field>, path: seq<string>): seq<Visit>
    decreases fields
  {
    if fields == [] then []
    else
      (if fields[0].exported then Visits(fields[0].value, path + [fields[0].name]) else [])
      + FieldVisits(fields[1..], path)
  }

  datatype Walked<S> = Walked(calls: seq<Call>, state: S, err: Error)

  /**
   The callback over a flat list: a skipped entry takes its subtree with it, and any other error
   than a skip is the last thing that happens.
   */
  function Run<S>(cb: Callback<S>, s: S, visits: seq<Visit>): (w: Walked<S>)
    ensures w.err != SkipBranch
    decreases |visits|
  {
    if visits == [] then Walked([], s, NoError)
    else
      var v := visits[0];
      var (s', err) := cb(s, v.call);
      if err == NoError then Then([v.call], Run(cb, s', visits[1..]))
      else if err == SkipBranch then
        Then([v.call], Run(cb, s', if 1 + v.below <= |visits| then visits[1 + v.below..] else []))
      else Walked([v.call], s', err)
  }

  function Then<S>(calls: seq<Call>, w: Walked<S>): Walked<S> {
    w.(calls := calls + w.calls)
  }

  /** Every subtree ends inside the list. */
  ghost predicate Nested(visits: seq<Visit>) {
    forall i | 0 <= i < |visits| :: i + 1 + visits[i].below <= |visits|
  }

  lemma {:induction false} VisitsNested(v: Value, path: seq<string>)
    ensures Nested(Visits(v, path)) && Nested(Inside(v, path))
    decreases v
  {
    match v
    case Pointer(elem) => VisitsNested(elem, path);
    case Struct(fields) => FieldVisitsNested(fields, path);
    case _ =>
  }

  lemma {:induction false} FieldVisitsNested(fields: seq<Field>, path: seq<string>)
    ensures Nested(FieldVisits(fields, path))
    decreases fields
  {
    if fields == [] {
    } else {
      VisitsNested(fields[0].value, path + [fields[0].name]);
      FieldVisitsNested(fields[1..], path);
    }
  }

  lemma NestedRest(visits: seq<Visit>, n: nat)
    requires Nested(visits) && n <= |visits|
    ensures Nested(visits[n..])
  {
    forall i | 0 <= i < |visits[n..]| ensures i + 1 + visits[n..][i].below <= |visits[n..]| {
      assert visits[n..][i] == visits[n + i];
    }
  }

  /** Running over two lists in a row: the second is reached unless the first was cut. */
  lemma {:induction false} RunAppend<S>(cb: Callback<S>, s: S, a: seq<Visit>, b: seq<Visit>)
    requires Nested(a)
    ensures var w := Run(cb, s, a);
      Run(cb, s, a + b) == if w.err == NoError then Then(w.calls, Run(cb, w.state, b)) else w
    decreases |a|
  {
    if a == [] {
      assert a + b == b;
      var w := Run(cb, s, b);
      assert [] + w.calls == w.calls;
    } else {
      var v := a[0];
      var (s', err) := cb(s, v.call);
      var skip := if err == SkipBranch then 1 + v.below else 1;
      assert (a + b)[skip..] == a[skip..] + b;
      NestedRest(a, skip);
      RunAppend(cb, s', a[skip..], b);
      var first := Run(cb, s', a[skip..]);
      var second := Run(cb, first.state, b);
      assert [v.call] + (first.calls + second.calls) == [v.call] + first.calls + second.calls;
    }
  }

  /** A run over the entries of one value, by the callback's answer to the value itself. */
  lemma RunVisits<S>(cb: Callback<S>, s: S, v: Value, path: seq<string>)
    ensures var w, call := Run(cb, s, Visits(v, path)), Call(v, path);
      var (s', err) := cb(s, call);
      w == if path == [] then Run(cb, s, Inside(v, path))
           else if err == NoError then Then([call], Run(cb, s', Inside(v, path)))
           else Walked([call], s', if err == SkipBranch then NoError else err)
  {
    if path != [] {
      var inner, call := Inside(v, path), Call(v, path);
      var visits := [Visit(call, |inner|)] + inner;
      assert visits == Visits(v, path);
      assert visits[1..] == inner && visits[1 + |inner|..] == [];
    }
  }

  /** What is left of a walk over fields before the n-th one. */
  ghost function FromField<S>(cb: Callback<S>, s: S, fields: seq<Field>, path: seq<string>, n: nat): Walked<S>
    requires n <= |fields|
  {
    Run(cb, s, FieldVisits(fields[n..], path))
  }

  /** One turn of the loop over fields, after the calls in `done`. */
  lemma FieldTurn<S>(cb: Callback<S>, s: S, fields: seq<Field>, path: seq<string>, n: nat, done: seq<Call>)
    requires n < |fields|
    ensures var w, ft := Then(done, FromField(cb, s, fields, path, n)), fields[n];
      if !ft.exported then w == Then(done, FromField(cb, s, fields, path, n + 1))
      else
        var first := Run(cb, s, Visits(ft.value, path + [ft.name]));
        w == if first.err == NoError then Then(done + first.calls, FromField(cb, first.state, fields, path, n + 1))
             else Then(done, first)
  {
    var ft, tail := fields[n], FieldVisits(fields[n + 1..], path);
    assert fields[n..][0] == ft && fields[n..][1..] == fields[n + 1..];
    if ft.exported {
      VisitsNested(ft.value, path + [ft.name]);
      RunAppend(cb, s, Visits(ft.value, path + [ft.name]), tail);
      var first := Run(cb, s, Visits(ft.value, path + [ft.name]));
      var rest := Run(cb, first.state, tail);
      assert done + (first.calls + rest.calls) == done + first.calls + rest.calls;
    } else {
      assert [] + tail == tail;
    }
  }

  /** Position by position, `calls` are entries of the list, in list order. */
  ghost predicate Follows(at: seq<nat>, calls: seq<Call>, visits: seq<Visit>) {
    && |at| == |calls|
    && (forall i | 0 <= i < |at| :: at[i] < |visits| && visits[at[i]].call == calls[i])
    && (forall i, j | 0 <= i < j < |at| :: at[i] < at[j])
  }

  lemma FollowsFirst(at: seq<nat>, calls: seq<Call>, visits: seq<Visit>, skip: nat) returns (all: seq<nat>)
    requires 1 <= skip <= |visits| && Follows(at, calls, visits[skip..])
    ensures Follows(all, [visits[0].call] + calls, visits)
  {
    all := [0] + seq(|at|, i requires 0 <= i < |at| => at[i] + skip);
  }

  /** The calls of a run are entries of the list, in list order, each at most once. */
  lemma {:induction false} CallsFollowPreOrder<S>(cb: Callback<S>, s: S, visits: seq<Visit>) returns (at: seq<nat>)
    ensures Follows(at, Run(cb, s, visits).calls, visits)
    decreases |visits|
  {
    if visits == [] {
      return [];
    }
    var v := visits[0];
    var (s', err) := cb(s, v.call);
    if err == NoError || err == SkipBranch {
      var skip := if err == NoError then 1 else if 1 + v.below <= |visits| then 1 + v.below else |visits|;
      assert err == SkipBranch && 1 + v.below > |visits| ==> visits[skip..] == [];
      var rest := CallsFollowPreOrder(cb, s', visits[skip..]);
      at := FollowsFirst(rest, Run(cb, s', visits[skip..]).calls, visits, skip);
    } else {
      at := [0];
    }
  }

  /** A callback that never objects sees every exported field. */
  lemma {:induction false} UnobjectedRunSeesAll<S>(cb: Callback<S>, s: S, visits: seq<Visit>)
    requires forall t, c :: cb(t, c).1 == NoError
    ensures var w := Run(cb, s, visits);
      w.err == NoError && |w.calls| == |visits| && forall i | 0 <= i < |visits| :: w.calls[i] == visits[i].call
    decreases |visits|
  {
    if visits == [] {
    } else {
      UnobjectedRunSeesAll(cb, cb(s, visits[0].call).0, visits[1..]);
    }
  }

  /**
   The order of the list, case by case: a value before what is inside it, together with the number of
   entries inside; what a pointer leads to under the pointer's own path; fields in declaration order,
   unexported ones left out.
   */
  lemma PreOrder(v: Value, path: seq<string>, fs: seq<Field>, gs: seq<Field>, f: Field, id: int)
    ensures path != [] ==>
      |Visits(v, path)| >= 1 && Visits(v, path)[0] == Visit(Call(v, path), |Visits(v, path)| - 1)
      && Visits(v, path)[1..] == Inside(v, path)
    ensures Visits(v, []) == Inside(v, [])
    ensures Inside(Pointer(v), path) == Visits(v, path)
    ensures Inside(Scalar(id), path) == [] && Inside(NilPointer, path) == [] && Inside(Struct([]), path) == []
    ensures Inside(Struct(fs + [f] + gs), path) ==
      Inside(Struct(fs), path) + (if f.exported then Visits(f.value, path + [f.name]) else [])
      + Inside(Struct(gs), path)
  {
    var visits := Visits(v, path);
    if path != [] {
      assert visits[1..] == Inside(v, path);
    }
    FieldsAppend(fs + [f], gs, path);
    FieldsAppend(fs, [f], path);
    OneField(f, path);
  }

  lemma OneField(f: Field, path: seq<string>)
    ensures FieldVisits([f], path) == if f.exported then Visits(f.value, path + [f.name]) else []
  {
    assert [f][1..] == [];
    assert FieldVisits([], path) == [];
    var visits := if f.exported then Visits(f.value, path + [f.name]) else [];
    assert visits + [] == visits;
  }

  lemma {:induction false} FieldsAppend(fs: seq<Field>, gs: seq<Field>, path: seq<string>)
    ensures FieldVisits(fs + gs, path) == FieldVisits(fs, path) + FieldVisits(gs, path)
    decreases fs
  {
    if fs == [] {
      assert fs + gs == gs;
    } else {
      assert (fs + gs)[1..] == fs[1..] + gs;
      FieldsAppend(fs[1..], gs, path);
      var head := if fs[0].exported then Visits(fs[0].value, path + [fs[0].name]) else [];
      assert head + (FieldVisits(fs[1..], path) + FieldVisits(gs, path))
          == head + FieldVisits(fs[1..], path) + FieldVisits(gs, path);
    }
  }

  /**
   The callback's answers, case by case: it goes on inside, passes over the inside, or ends the walk
   with what it answered.
   */
  lemma AnswersObeyed<S>(cb: Callback<S>, s: S, v: Value, path: seq<string>, rest: seq<Visit>)
    requires path != []
    ensures var call := Call(v, path);
      var (s', err) := cb(s, call);
      Run(cb, s, Visits(v, path) + rest) ==
        if err == NoError then Then([call], Run(cb, s', Inside(v, path) + rest))
        else if err == SkipBranch then Then([call], Run(cb, s', rest))
        else Walked([call], s', err)
  {
    var inner := Inside(v, path);
    assert Visits(v, path) + rest == [Visit(Call(v, path), |inner|)] + (inner + rest);
    assert (inner + rest)[|inner|..] == rest;
    RunFirst(cb, s, Visit(Call(v, path), |inner|), inner + rest);
  }

  lemma RunFirst<S>(cb: Callback<S>, s: S, v: Visit, tail: seq<Visit>)
    requires v.below <= |tail|
    ensures var (s', err) := cb(s, v.call);
      Run(cb, s, [v] + tail) ==
        if err == NoError then Then([v.call], Run(cb, s', tail))
        else if err == SkipBranch then Then([v.call], Run(cb, s', tail[v.below..]))
        else Walked([v.call], s', err)
  {
    var visits := [v] + tail;
    assert visits[1..] == tail && visits[1 + v.below..] == tail[v.below..];
  }

  /** Nothing left to visit is no call and no error. */
  lemma NothingToVisit<S>(cb: Callback<S>, s: S)
    ensures Run(cb, s, []) == Walked([], s, NoError)
  {
  }

  /** Following the field names in `path` from `v`, through pointers where needed, leads to `w`. */
  ghost predicate Reaches(v: Value, path: seq<string>, w: Value)
    decreases v
  {
    || (path == [] && v == w)
    || (v.Pointer? && Reaches(v.elem, path, w))
    || (v.Struct? && path != [] && ReachesInFields(v.fields, path, w))
  }

  ghost predicate ReachesInFields(fields: seq<Field>, path: seq<string>, w: Value)
    requires path != []
    decreases fields
  {
    fields != [] && (
      || (fields[0].exported && fields[0].name == path[0] && Reaches(fields[0].value, path[1..], w))
      || ReachesInFields(fields[1..], path, w))
  }

  ghost predicate Visited(visits: seq<Visit>, call: Call) {
    exists i :: 0 <= i < |visits| && visits[i].call == call
  }

  lemma VisitedAppend(a: seq<Visit>, b: seq<Visit>, call: Call)
    ensures Visited(a + b, call) <==> Visited(a, call) || Visited(b, call)
  {
    if i :| 0 <= i < |a| && a[i].call == call {
      assert (a + b)[i].call == call;
    } else if i :| 0 <= i < |b| && b[i].call == call {
      assert (a + b)[|a| + i].call == call;
    }
  }

  /**
   The pre-order list is exactly what can be reached: an entry says `w` at `prefix + path` if and
   only if the names in `path` lead from `v` to `w`; the root alone is not an entry.
   */
  lemma {:induction false} VisitsAreReachable(v: Value, prefix: seq<string>, path: seq<string>, w: Value)
    ensures Visited(Visits(v, prefix), Call(w, prefix + path)) <==> prefix + path != [] && Reaches(v, path, w)
    decreases v, 1
  {
    var call, inner := Call(w, prefix + path), Inside(v, prefix);
    if prefix + path != [] {
      InsideIsReachable(v, prefix, path, w);
    }
    if prefix != [] {
      var self := [Visit(Call(v, prefix), |inner|)];
      VisitedAppend(self, inner, call);
      assert prefix + path == prefix <==> path == [];
      assert self[0].call == Call(v, prefix);
      assert Visited(self, call) <==> v == w && path == [];
    } else if path == [] {
      RootNotVisited(v, w);
    }
  }

  lemma {:induction false} InsideIsReachable(v: Value, prefix: seq<string>, path: seq<string>, w: Value)
    requires prefix + path != []
    ensures Visited(Inside(v, prefix), Call(w, prefix + path)) <==>
      (v.Pointer? && Reaches(v.elem, path, w)) || (v.Struct? && path != [] && ReachesInFields(v.fields, path, w))
    decreases v, 0
  {
    match v
    case Pointer(elem) => VisitsAreReachable(elem, prefix, path, w);
    case Struct(fields) => FieldVisitsAreReachable(fields, prefix, path, w);
    case _ =>
  }

  lemma {:induction false} FieldVisitsAreReachable(fields: seq<Field>, prefix: seq<string>, path: seq<string>, w: Value)
    ensures Visited(FieldVisits(fields, prefix), Call(w, prefix + path)) <==>
      path != [] && ReachesInFields(fields, path, w)
    decreases fields
  {
    if fields == [] {
    } else {
      var f, call := fields[0], Call(w, prefix + path);
      var head := if f.exported then Visits(f.value, prefix + [f.name]) else [];
      VisitedAppend(head, FieldVisits(fields[1..], prefix), call);
      FieldVisitsAreReachable(fields[1..], prefix, path, w);
      if f.exported {
        PathsExtend(f.value, prefix + [f.name]);
        if path != [] && path[0] == f.name {
          assert prefix + path == prefix + [f.name] + path[1..];
          VisitsAreReachable(f.value, prefix + [f.name], path[1..], w);
        } else {
          PrefixElement(prefix, f.name, path);
        }
      }
    }
  }

  lemma PrefixElement(prefix: seq<string>, name: string, path: seq<string>)
    ensures prefix + [name] <= prefix + path <==> path != [] && path[0] == name
  {
    if prefix + [name] <= prefix + path {
      assert (prefix + [name])[|prefix|] == (prefix + path)[|prefix|];
    }
  }

  lemma {:induction false} PathsExtend(v: Value, prefix: seq<string>)
    ensures forall i | 0 <= i < |Visits(v, prefix)| :: prefix <= Visits(v, prefix)[i].call.path
    decreases v, 1
  {
    InnerPathsExtend(v, prefix);
    var inner, visits := Inside(v, prefix), Visits(v, prefix);
    forall i | 0 <= i < |visits| ensures prefix <= visits[i].call.path {
      assert visits[i] ==
        if prefix == [] then inner[i] else if i == 0 then Visit(Call(v, prefix), |inner|) else inner[i - 1];
    }
  }

  lemma {:induction false} InnerPathsExtend(v: Value, prefix: seq<string>)
    ensures forall i | 0 <= i < |Inside(v, prefix)| :: prefix <= Inside(v, prefix)[i].call.path
    decreases v, 0
  {
    match v
    case Pointer(elem) => PathsExtend(elem, prefix);
    case Struct(fields) => FieldPathsExtend(fields, prefix);
    case _ =>
  }

  lemma {:induction false} FieldPathsExtend(fields: seq<Field>, prefix: seq<string>)
    ensures forall i | 0 <= i < |FieldVisits(fields, prefix)| :: prefix <= FieldVisits(fields, prefix)[i].call.path
    ensures prefix == [] ==> forall i | 0 <= i < |FieldVisits(fields, prefix)| ::
      FieldVisits(fields, prefix)[i].call.path != []
    decreases fields
  {
    if fields == [] {
    } else {
      PathsExtend(fields[0].value, prefix + [fields[0].name]);
      FieldPathsExtend(fields[1..], prefix);
    }
  }

  lemma {:induction false} RootNotVisited(v: Value, w: Value)
    ensures !Visited(Visits(v, []), Call(w, []))
    decreases v
  {
    match v
    case Pointer(elem) => RootNotVisited(elem, w);
    case Struct(fields) =>
      FieldPathsExtend(fields, []);
      assert Inside(v, []) == FieldVisits(fields, []) && Visits(v, []) == Inside(v, []);
      assert forall i | 0 <= i < |Visits(v, [])| :: Visits(v, [])[i].call.path != [];
    case _ =>
  }

  // ------------------------------------------------------------------ slices

  /** A Go slice that starts at the front of its array; the capacity is the array's length. */
  datatype Slice = Slice(arr: array<string>, len: nat)

  class StructWalker<S> {
    const cb: Callback<S>
    // How much room to spare `append` leaves when it must move; any policy will do.
    const grow: nat -> nat
    var state: S
    var calls: seq<Call>

    constructor (cb: Callback<S>, grow: nat -> nat, state: S)
      ensures this.cb == cb && this.grow == grow && this.state == state && calls == []
    {
      this.cb, this.grow, this.state, calls := cb, grow, state, [];
    }

    /** append(s, name): in place when there is room, else into a new array. */
    method Append(s: Slice, name: string) returns (r: Slice)
      requires s.len <= s.arr.Length
      modifies s.arr
      ensures r.len == s.len + 1 <= r.arr.Length
      ensures r.arr[..r.len] == old(s.arr[..s.len]) + [name]
      ensures s.arr[..s.len] == old(s.arr[..s.len])
      ensures if s.len < s.arr.Length then r.arr == s.arr else fresh(r.arr)
    {
      if s.len < s.arr.Length {
        s.arr[s.len] := name;
        r := Slice(s.arr, s.len + 1);
      } else {
        var moved := new string[s.len + 1 + grow(s.len)](_ => "");
        for i := 0 to s.len
          invariant s.arr[..] == old(s.arr[..]) && moved[..i] == s.arr[..i]
        {
          moved[i] := s.arr[i];
        }
        moved[s.len] := name;
        r := Slice(moved, s.len + 1);
      }
    }

    method Invoke(v: Value, path: Slice) returns (err: Error)
      requires path.len <= path.arr.Length
      modifies this
      ensures var call := Call(v, path.arr[..path.len]);
        (state, err) == cb(old(state), call) && calls == old(calls) + [call]
    {
      var call := Call(v, path.arr[..path.len]);
      var (s, e) := cb(state, call);
      state, err, calls := s, e, calls + [call];
    }

    /** walkStructIter: the callback first, but not for the root, then what is inside. */
    method WalkIter(v: Value, path: Slice) returns (err: Error)
      requires path.len <= path.arr.Length
      modifies this, path.arr
      ensures path.arr[..path.len] == old(path.arr[..path.len])
      ensures var w := Run(cb, old(state), Visits(v, old(path.arr[..path.len])));
        calls == old(calls) + w.calls && state == w.state && err == w.err
      decreases v, 1
    {
      RunVisits(cb, state, v, path.arr[..path.len]);
      if path.len > 0 {
        err := Invoke(v, path);
        if err == SkipBranch {
          return NoError;
        } else if err != NoError {
          return;
        }
      }
      err := WalkInside(v, path);
    }

    /** The switch of walkStructIter on the kind of the value. */
    method WalkInside(v: Value, path: Slice) returns (err: Error)
      requires path.len <= path.arr.Length
      modifies this, path.arr
      ensures path.arr[..path.len] == old(path.arr[..path.len])
      ensures var w := Run(cb, old(state), Inside(v, old(path.arr[..path.len])));
        calls == old(calls) + w.calls && state == w.state && err == w.err
      decreases v, 0
    {
      match v {
        case Pointer(elem) =>
          err := WalkIter(elem, path);
        case Struct(fields) =>
          err := WalkFields(fields, path);
        case _ =>
          err := NoError;
      }
    }

    /** The loop over the fields of a struct. */
    method WalkFields(fields: seq<Field>, path: Slice) returns (err: Error)
      requires path.len <= path.arr.Length
      modifies this, path.arr
      ensures path.arr[..path.len] == old(path.arr[..path.len])
      ensures var w := Run(cb, old(state), FieldVisits(fields, old(path.arr[..path.len])));
        calls == old(calls) + w.calls && state == w.state && err == w.err
      decreases fields
    {
      ghost var names := path.arr[..path.len];
      ghost var whole := Then(calls, FromField(cb, state, fields, names, 0));
      assert fields[0..] == fields;
      for n := 0 to |fields|
        invariant path.arr[..path.len] == names
        invariant whole == Then(calls, FromField(cb, state, fields, names, n))
      {
        var ft := fields[n];
        FieldTurn(cb, state, fields, names, n, calls);
        if !ft.exported {
          continue;
        }
        err := WalkField(ft, path);
        if err == SkipBranch {
          continue;
        } else if err != NoError {
          return;
        }
      }
      return NoError;
    }

    /** The body of the loop: extend the path and walk the field under it. */
    method WalkField(ft: Field, path: Slice) returns (err: Error)
      requires path.len <= path.arr.Length
      modifies this, path.arr
      ensures path.arr[..path.len] == old(path.arr[..path.len])
      ensures var w := Run(cb, old(state), Visits(ft.value, old(path.arr[..path.len]) + [ft.name]));
        calls == old(calls) + w.calls && state == w.state && err == w.err
      decreases ft
    {
      var next := Append(path, ft.name);
      ghost var extended := next.arr[..next.len];
      err := WalkIter(ft.value, next);
      assert next.arr == path.arr ==> next.arr[..next.len][..path.len] == extended[..path.len];
    }

    /** WalkStruct for a struct or a non-nil pointer to one; anything else is refused. */
    method WalkStruct(value: Value) returns (err: Error)
      requires !value.NilPointer?
      modifies this
      ensures var target := if value.Pointer? then value.elem else value;
        if target.Struct? then
          var w := Run(cb, old(state), Visits(target, []));
          && calls == old(calls) + w.calls && state == w.state
          && err == if w.err == StopIteration then NoError else w.err
        else calls == old(calls) && state == old(state) && err == UnexpectedKind
    {
      var v := if value.Pointer? then value.elem else value;
      if !v.Struct? {
        return UnexpectedKind;
      }
      var none := new string[0];
      assert none[..0] == [];
      err := WalkIter(v, Slice(none, 0));
      if err == StopIteration {
        err := NoError;
      }
    }

    /**
     Why a callback must not keep the path it is given: appending a sibling rewrites it exactly when
     the parent's array had room and the names differ.
     */
    method AppendTwice(s: Slice, first: string, second: string) returns (kept: Slice)
      requires s.len <= s.arr.Length
      modifies s.arr
      ensures kept.len <= kept.arr.Length
      ensures kept.arr[..kept.len] == old(s.arr[..s.len]) + [first] <==> s.arr.Length == s.len || first == second
    {
      kept := Append(s, first);
      assert kept.arr[..kept.len][s.len] == first;
      var other := Append(s, second);
      if s.len < s.arr.Length {
        assert kept.arr[..kept.len] == old(s.arr[..s.len]) + [second];
        assert (old(s.arr[..s.len]) + [second])[s.len] == second;
        assert (old(s.arr[..s.len]) + [first])[s.len] == first;
      }
    }
  }
}
