/**
 The mounted tree as a value, and what adding files to it one at a time does: where each file ends
 up, and how the run ends, by itself, at a broken sidecar, or by a panic.
 */
module Placing {
  import opened Wrappers

  const DEFAULT_MODE := 256 // octal 0400

  datatype Attr = Attr(mode: int, uid: int, gid: int, size: int)
  const DEFAULT_ATTR := Attr(DEFAULT_MODE, 0, 0, 0)

  /** The outcome of looking for a sidecar: no such file, decoded over the default, or an error. */
  datatype AttrLoad = Absent | Loaded(attr: Attr) | Failed

  function AttrOf(load: AttrLoad): Attr {
    if load.Loaded? then load.attr else DEFAULT_ATTR
  }

  // ------------------------------------------------------------ inode trees

  datatype Node = Directory | File(content: Bytes, attr: Attr)

  /** Every inode below the mount point, by the components that lead to it. */
  type Tree = map<seq<string>, Node>

  const EMPTY_TREE: Tree := map[[] := Directory]

  function Prefixes(dirs: seq<string>): (ps: set<seq<string>>)
    ensures forall p :: p in ps <==> p <= dirs
  {
    var ps := set i | 0 <= i <= |dirs| :: dirs[..i];
    assert forall p :: p <= dirs ==> p == dirs[..|p|];
    ps
  }

  /** `tree` with a directory for every missing component of `dirs`. */
  function WithDirs(tree: Tree, dirs: seq<string>): Tree {
    map p | p in tree.Keys + Prefixes(dirs) :: if p in tree then tree[p] else Directory
  }

  predicate FileThere(tree: Tree, p: seq<string>) {
    p in tree && tree[p].File?
  }

  /** A component of `dirs` is a file, which cannot have children. */
  predicate Blocked(tree: Tree, dirs: seq<string>) {
    exists i | 0 <= i <= |dirs| :: FileThere(tree, dirs[..i])
  }

  predicate BlockedAbove(tree: Tree, dirs: seq<string>) {
    dirs != [] && Blocked(tree, dirs[..|dirs| - 1])
  }

  /** A file on its way into the tree: where it goes, what it holds, how its sidecar loads. */
  datatype Placement = Placement(dirs: seq<string>, base: string, content: Bytes, load: AttrLoad) {
    function At(): seq<string> { dirs + [base] }

    function Inode(): Node { File(content, AttrOf(load)) }
  }

  /** How a callback or a whole walk ends. */
  datatype End = Finished | Stopped | Panicked

  datatype Mounted = Mounted(tree: Tree, end: End) {
    const ok := end == Finished
  }

  /**
   One callback that reaches the mounting code. Adding to a file inode panics: for a directory before
   the sidecar is looked at, for the file itself after.
   */
  function Place(tree: Tree, p: Placement): Mounted {
    if BlockedAbove(tree, p.dirs) then Mounted(tree, Panicked)
    else if p.load.Failed? then Mounted(WithDirs(tree, p.dirs), Stopped)
    else if Blocked(tree, p.dirs) then Mounted(tree, Panicked)
    else Mounted(PlacedTree(tree, p), Finished)
  }

  /** The directories come first; an existing inode is never replaced. */
  function PlacedTree(tree: Tree, p: Placement): Tree {
    var withDirs := WithDirs(tree, p.dirs);
    if p.At() in withDirs then withDirs else withDirs[p.At() := p.Inode()]
  }

  /** The callbacks in order; the first that does not finish ends the walk. */
  function PlaceAll(tree: Tree, ps: seq<Placement>): Mounted {
    if ps == [] then Mounted(tree, Finished)
    else
      var before := PlaceAll(tree, ps[..|ps| - 1]);
      if before.ok then Place(before.tree, ps[|ps| - 1]) else before
  }

  lemma {:induction false} PlaceAllAppend(tree: Tree, a: seq<Placement>, b: seq<Placement>)
    ensures var first := PlaceAll(tree, a);
      PlaceAll(tree, a + b) == if first.ok then PlaceAll(first.tree, b) else first
  {
    if b == [] {
      assert a + b == a;
    } else {
      assert (a + b)[..|a + b| - 1] == a + b[..|b| - 1];
      PlaceAllAppend(tree, a, b[..|b| - 1]);
    }
  }

  /** Every inode but the root hangs below another. */
  ghost predicate Closed(tree: Tree) {
    forall p, name | p + [name] in tree :: p in tree
  }

  lemma {:induction false} AncestorsThere(tree: Tree, p: seq<string>, n: nat)
    requires Closed(tree) && p in tree && n <= |p|
    ensures p[..n] in tree
    decreases |p| - n
  {
    if n == |p| {
      assert p[..n] == p;
    } else {
      AncestorsThere(tree, p, n + 1);
      assert p[..n] + [p[n]] == p[..n + 1];
    }
  }

  /** Nothing is missing on the way to a path that is there. */
  lemma WithDirsHere(tree: Tree, dirs: seq<string>)
    requires Closed(tree)
    ensures dirs in tree ==> WithDirs(tree, dirs) == tree
  {
    if dirs in tree {
      forall p | p in Prefixes(dirs) ensures p in tree {
        AncestorsThere(tree, dirs, |p|);
        assert p == dirs[..|p|];
      }
    }
  }

  lemma BlockedHere(tree: Tree, dirs: seq<string>)
    ensures Blocked(tree, dirs) <==> BlockedAbove(tree, dirs) || FileThere(tree, dirs)
  {
    assert dirs[..|dirs|] == dirs;
    if dirs != [] {
      var front := dirs[..|dirs| - 1];
      assert forall i | 0 <= i <= |front| :: front[..i] == dirs[..i];
    }
  }

  /** The same in the order in which the callback does it. */
  lemma PlaceInSteps(tree: Tree, p: Placement)
    requires Closed(tree)
    ensures var withDirs := WithDirs(tree, p.dirs);
      Place(tree, p) ==
        if BlockedAbove(tree, p.dirs) then Mounted(tree, Panicked)
        else if p.load.Failed? then Mounted(withDirs, Stopped)
        else if FileThere(withDirs, p.dirs) then Mounted(withDirs, Panicked)
        else Mounted(if p.At() in withDirs then withDirs else withDirs[p.At() := p.Inode()], Finished)
  {
    BlockedHere(tree, p.dirs);
    WithDirsHere(tree, p.dirs);
  }

  lemma BlockedNext(tree: Tree, here: seq<string>, name: string)
    ensures BlockedAbove(tree, here + [name]) <==> BlockedAbove(tree, here) || FileThere(tree, here)
  {
    var there := here + [name];
    assert there[..|there| - 1] == here;
    BlockedHere(tree, here);
  }

  lemma BlockedPrefix(tree: Tree, p: seq<string>, q: seq<string>)
    requires p <= q && BlockedAbove(tree, p)
    ensures BlockedAbove(tree, q)
  {
    var front := p[..|p| - 1];
    var i :| 0 <= i <= |front| && FileThere(tree, front[..i]);
    assert front[..i] == q[..|q| - 1][..i];
  }

  // ------------------------------------------------------ where inodes come from

  /** When this file is added, nothing is at its place yet. */
  ghost predicate FirstThere(ps: seq<Placement>, m: nat)
    requires m < |ps|
  {
    forall j | 0 <= j < m :: !(ps[m].At() <= ps[j].At())
  }

  ghost predicate Touches(ps: seq<Placement>, p: seq<string>) {
    p == [] || exists i | 0 <= i < |ps| :: p <= ps[i].At()
  }

  ghost predicate TakenBy(ps: seq<Placement>, m: nat, p: seq<string>) {
    m < |ps| && ps[m].At() == p && FirstThere(ps, m)
  }

  lemma TouchesNext(ps: seq<Placement>, p: seq<string>)
    requires ps != []
    ensures var init, last := ps[..|ps| - 1], ps[|ps| - 1];
      Touches(ps, p) <==> Touches(init, p) || p <= last.At()
  {
    var init := ps[..|ps| - 1];
    assert ps == init + [ps[|ps| - 1]];
    assert forall i | 0 <= i < |init| :: init[i] == ps[i];
  }

  lemma TakenByNext(ps: seq<Placement>, m: nat, p: seq<string>)
    requires ps != []
    ensures var init, last := ps[..|ps| - 1], ps[|ps| - 1];
      TakenBy(ps, m, p) <==> TakenBy(init, m, p) || (m == |init| && last.At() == p && !Touches(init, p))
  {
    var init, last := ps[..|ps| - 1], ps[|ps| - 1];
    assert forall i | 0 <= i < |init| :: init[i] == ps[i];
    assert last.At() != [];
  }

  /** However the run ends, every inode is a component of some file's place. */
  lemma {:induction false} InodesAreTouched(ps: seq<Placement>, p: seq<string>)
    requires p in PlaceAll(EMPTY_TREE, ps).tree
    ensures Touches(ps, p)
    decreases |ps|
  {
    if ps == [] {
    } else {
      var init, last := ps[..|ps| - 1], ps[|ps| - 1];
      TouchesNext(ps, p);
      PlacedInode(PlaceAll(EMPTY_TREE, init).tree, last, p);
      assert p <= last.dirs ==> p <= last.At();
      if p in PlaceAll(EMPTY_TREE, init).tree {
        InodesAreTouched(init, p);
      }
    }
  }

  lemma LastPlaced(ps: seq<Placement>)
    requires ps != [] && PlaceAll(EMPTY_TREE, ps).ok
    ensures var before := PlaceAll(EMPTY_TREE, ps[..|ps| - 1]);
      before.ok && PlaceAll(EMPTY_TREE, ps).tree == PlacedTree(before.tree, ps[|ps| - 1])
  {
    PlaceFinished(PlaceAll(EMPTY_TREE, ps[..|ps| - 1]).tree, ps[|ps| - 1]);
  }

  lemma PlaceFinished(tree: Tree, p: Placement)
    ensures Place(tree, p).ok ==> Place(tree, p).tree == PlacedTree(tree, p)
  {
  }

  lemma {:induction false} InodeThere(ps: seq<Placement>, p: seq<string>)
    requires PlaceAll(EMPTY_TREE, ps).ok
    ensures p in PlaceAll(EMPTY_TREE, ps).tree <==> Touches(ps, p)
    decreases |ps|
  {
    if ps == [] {
    } else {
      LastPlaced(ps);
      InodeThere(ps[..|ps| - 1], p);
      TouchesNext(ps, p);
      PlacedInode(PlaceAll(EMPTY_TREE, ps[..|ps| - 1]).tree, ps[|ps| - 1], p);
    }
  }

  predicate Holds(tree: Tree, p: seq<string>, node: Node) {
    p in tree && tree[p] == node
  }

  lemma {:induction false} TakenIsFile(ps: seq<Placement>, m: nat, p: seq<string>)
    requires PlaceAll(EMPTY_TREE, ps).ok && TakenBy(ps, m, p)
    ensures Holds(PlaceAll(EMPTY_TREE, ps).tree, p, ps[m].Inode())
    decreases |ps|
  {
    var init, last := ps[..|ps| - 1], ps[|ps| - 1];
    LastPlaced(ps);
    TakenByNext(ps, m, p);
    if TakenBy(init, m, p) {
      TakenIsFile(init, m, p);
      StillHolds(PlaceAll(EMPTY_TREE, init).tree, last, p, ps[m].Inode());
    } else {
      InodeThere(init, p);
      PlacedInode(PlaceAll(EMPTY_TREE, init).tree, last, p);
    }
  }

  lemma StillHolds(tree: Tree, last: Placement, p: seq<string>, node: Node)
    requires Holds(tree, p, node)
    ensures Holds(PlacedTree(tree, last), p, node)
  {
  }

  lemma {:induction false} FileIsTaken(ps: seq<Placement>, p: seq<string>) returns (m: nat)
    requires PlaceAll(EMPTY_TREE, ps).ok && FileThere(PlaceAll(EMPTY_TREE, ps).tree, p)
    ensures TakenBy(ps, m, p)
    decreases |ps|
  {
    var init, last := ps[..|ps| - 1], ps[|ps| - 1];
    LastPlaced(ps);
    InodeThere(init, p);
    PlacedInode(PlaceAll(EMPTY_TREE, init).tree, last, p);
    if p in PlaceAll(EMPTY_TREE, init).tree {
      m := FileIsTaken(init, p);
    } else {
      m := |init|;
    }
    TakenByNext(ps, m, p);
  }

  /**
   The tree after a finished run, for any files: a path is there exactly when it leads to one of them,
   and it is a file exactly when a file came first there, whose content it then has.
   */
  lemma InodesOf(ps: seq<Placement>, p: seq<string>)
    requires PlaceAll(EMPTY_TREE, ps).ok
    ensures var tree := PlaceAll(EMPTY_TREE, ps).tree;
      && (p in tree <==> Touches(ps, p))
      && (FileThere(tree, p) <==> exists m: nat :: TakenBy(ps, m, p))
      && forall m: nat | TakenBy(ps, m, p) :: Holds(tree, p, ps[m].Inode())
  {
    InodeThere(ps, p);
    if FileThere(PlaceAll(EMPTY_TREE, ps).tree, p) {
      var m := FileIsTaken(ps, p);
    }
    forall m: nat | TakenBy(ps, m, p)
      ensures Holds(PlaceAll(EMPTY_TREE, ps).tree, p, ps[m].Inode())
    {
      TakenIsFile(ps, m, p);
    }
  }

  lemma PlacedInode(tree: Tree, last: Placement, p: seq<string>)
    ensures var after := PlacedTree(tree, last);
      && (p in after <==> p in tree || p <= last.At())
      && (p in tree ==> after[p] == tree[p])
      && (p !in tree && p <= last.At() ==> after[p] == if p == last.At() then last.Inode() else Directory)
  {
    if p <= last.At() && p != last.At() {
      assert p == last.At()[..|p|] == last.dirs[..|p|];
    }
  }

  // --------------------------------------------------------- how a run ends

  /** A file that came first at its place stands in the way of `dirs`. */
  ghost predicate FileAbove(ps: seq<Placement>, dirs: seq<string>) {
    exists m: nat :: m < |ps| && ps[m].At() <= dirs && FirstThere(ps, m)
  }

  lemma BlockedExactly(ps: seq<Placement>, dirs: seq<string>)
    requires PlaceAll(EMPTY_TREE, ps).ok
    ensures Blocked(PlaceAll(EMPTY_TREE, ps).tree, dirs) <==> FileAbove(ps, dirs)
  {
    var tree := PlaceAll(EMPTY_TREE, ps).tree;
    if Blocked(tree, dirs) {
      var i :| 0 <= i <= |dirs| && FileThere(tree, dirs[..i]);
      InodesOf(ps, dirs[..i]);
      var m: nat :| TakenBy(ps, m, dirs[..i]);
      assert ps[m].At() <= dirs;
    }
    if m: nat :| m < |ps| && ps[m].At() <= dirs && FirstThere(ps, m) {
      var p := ps[m].At();
      InodesOf(ps, p);
      assert TakenBy(ps, m, p);
      assert p == dirs[..|p|];
    }
  }

  /** How the k-th callback ends, told from the files alone, if all before it finish. */
  ghost function VerdictAt(ps: seq<Placement>, k: nat): End
    requires k < |ps|
  {
    var p, earlier := ps[k], ps[..k];
    if p.dirs != [] && FileAbove(earlier, p.dirs[..|p.dirs| - 1]) then Panicked
    else if p.load.Failed? then Stopped
    else if FileAbove(earlier, p.dirs) then Panicked
    else Finished
  }

  lemma VerdictIs(ps: seq<Placement>, k: nat)
    requires k < |ps| && PlaceAll(EMPTY_TREE, ps[..k]).ok
    ensures Place(PlaceAll(EMPTY_TREE, ps[..k]).tree, ps[k]).end == VerdictAt(ps, k)
  {
    BlockedExactly(ps[..k], ps[k].dirs);
    if ps[k].dirs != [] {
      BlockedExactly(ps[..k], ps[k].dirs[..|ps[k].dirs| - 1]);
    }
  }

  ghost predicate FinishesUpTo(ps: seq<Placement>, n: nat)
    requires n <= |ps|
  {
    forall k: nat | k < n :: VerdictAt(ps, k) == Finished
  }

  /** The first callback that does not finish. */
  ghost predicate TroubleAt(ps: seq<Placement>, k: nat) {
    k < |ps| && FinishesUpTo(ps, k) && VerdictAt(ps, k) != Finished
  }

  lemma {:induction false} FirstTrouble(ps: seq<Placement>, n: nat) returns (k: nat)
    requires n <= |ps| && !FinishesUpTo(ps, n)
    ensures TroubleAt(ps, k)
    decreases n
  {
    if FinishesUpTo(ps, n - 1) {
      k := n - 1;
    } else {
      k := FirstTrouble(ps, n - 1);
    }
  }

  lemma PlaceNext(ps: seq<Placement>, k: nat)
    requires k < |ps| && PlaceAll(EMPTY_TREE, ps[..k]).ok
    ensures PlaceAll(EMPTY_TREE, ps[..k + 1]) == Place(PlaceAll(EMPTY_TREE, ps[..k]).tree, ps[k])
    ensures PlaceAll(EMPTY_TREE, ps[..k + 1]).end == VerdictAt(ps, k)
  {
    assert ps[..k + 1][..k] == ps[..k];
    VerdictIs(ps, k);
  }

  lemma {:induction false} RunsThrough(ps: seq<Placement>, n: nat)
    requires n <= |ps| && FinishesUpTo(ps, n)
    ensures PlaceAll(EMPTY_TREE, ps[..n]).ok
    decreases n
  {
    if n == 0 {
      assert ps[..0] == [];
    } else {
      RunsThrough(ps, n - 1);
      PlaceNext(ps, n - 1);
    }
  }

  lemma EndsAt(ps: seq<Placement>, k: nat)
    requires TroubleAt(ps, k)
    ensures PlaceAll(EMPTY_TREE, ps).end == VerdictAt(ps, k)
  {
    RunsThrough(ps, k);
    PlaceNext(ps, k);
    EndIsFinal(ps, k + 1);
  }

  lemma EndIsFinal(ps: seq<Placement>, n: nat)
    requires n <= |ps| && !PlaceAll(EMPTY_TREE, ps[..n]).ok
    ensures PlaceAll(EMPTY_TREE, ps) == PlaceAll(EMPTY_TREE, ps[..n])
  {
    PlaceAllAppend(EMPTY_TREE, ps[..n], ps[n..]);
    assert ps == ps[..n] + ps[n..];
  }

  /**
   What a run of any files leaves when it does not finish: the tree of the files before, and for a
   broken sidecar the directories of the failing file besides.
   */
  lemma EndLeaves(ps: seq<Placement>, k: nat)
    requires TroubleAt(ps, k)
    ensures var before := PlaceAll(EMPTY_TREE, ps[..k]);
      before.ok && PlaceAll(EMPTY_TREE, ps).tree ==
        if VerdictAt(ps, k) == Stopped then WithDirs(before.tree, ps[k].dirs) else before.tree
  {
    RunsThrough(ps, k);
    PlaceNext(ps, k);
    EndIsFinal(ps, k + 1);
    PlaceLeaves(PlaceAll(EMPTY_TREE, ps[..k]).tree, ps[k]);
  }

  lemma PlaceLeaves(tree: Tree, p: Placement)
    ensures Place(tree, p).end == Stopped ==> Place(tree, p).tree == WithDirs(tree, p.dirs)
    ensures Place(tree, p).end == Panicked ==> Place(tree, p).tree == tree
  {
  }

  /** A run of any files ends as the first callback that does not finish does. */
  lemma EndExactly(ps: seq<Placement>)
    ensures PlaceAll(EMPTY_TREE, ps).ok <==> FinishesUpTo(ps, |ps|)
    ensures forall k: nat | TroubleAt(ps, k) :: PlaceAll(EMPTY_TREE, ps).end == VerdictAt(ps, k)
  {
    forall k: nat | TroubleAt(ps, k) ensures PlaceAll(EMPTY_TREE, ps).end == VerdictAt(ps, k) {
      EndsAt(ps, k);
    }
    if FinishesUpTo(ps, |ps|) {
      RunsThrough(ps, |ps|);
      assert ps[..|ps|] == ps;
    } else {
      var k := FirstTrouble(ps, |ps|);
    }
  }
}
