/**
 `Fuse.Preload` over mutable inodes: the directory walk, its callback, and the loop that finds or
 creates the directories of a file, proved against the tree of SecretTree.
 */
module Preload {
  import opened Paths
  import opened Placing
  import opened SecretTree
  import opened Wrappers

  /** An inode of the mounted tree; only its children ever change. */
  class Inode {
    const node: Node
    var children: map<string, Inode>

    constructor (node: Node)
      ensures this.node == node && children == map[]
    {
      this.node := node;
      children := map[];
    }

    function GetChild(name: string): (child: Inode?)
      reads this
      ensures child == null <==> name !in children
      ensures child != null ==> child == children[name]
    {
      if name in children then children[name] else null
    }

    /**
     An entry that exists is replaced only when asked to. An inode needs a name, and the children of a
     file are a nil map, so adding to one panics.
     */
    method AddChild(name: string, child: Inode, overwrite: bool) returns (added: bool, panics: bool)
      requires name != "" && (node.File? ==> children == map[])
      modifies this`children
      ensures panics <==> node.File?
      ensures added <==> !panics && (overwrite || name !in old(children))
      ensures children == if added then old(children)[name := child] else old(children)
    {
      if name in children && !overwrite {
        return false, false;
      }
      if node.File? {
        return false, true;
      }
      children := children[name := child];
      return true, false;
    }
  }

  class Fuse {
    const env: Env
    const root: Inode
    // Every reachable inode by the components that lead to it from the root.
    ghost var at: map<seq<string>, Inode>

    ghost predicate Valid()
      reads this, at.Values
    {
      && Rooted(env.source)
      && [] in at && at[[]] == root
      && (forall p, q | p in at && q in at && at[p] == at[q] :: p == q)
      && (forall p, name :: Linked(p, name))
    }

    /** The children of the inode at `p` are the inodes one component further; files have none. */
    ghost predicate Linked(p: seq<string>, name: string)
      reads this, at.Values
    {
      && (p + [name] in at <==> p in at && name in at[p].children)
      && (p in at && name in at[p].children ==> at[p].children[name] == at[p + [name]] && at[p].node == Directory)
    }

    /** The components of the source directory itself, which the constructor has cleaned. */
    ghost function Above(): seq<string> {
      CleanParts(env.source)
    }

    ghost predicate SourceIsClean() {
      env.source == Absolute(Above()) && ValidNames(Above())
    }

    /** The tree as a value. */
    ghost function Contents(): Tree
      reads this, at.Values
    {
      map p | p in at :: at[p].node
    }

    constructor (env: Env, source: string)
      requires Rooted(source)
      ensures Valid() && Contents() == EMPTY_TREE && fresh(at.Values)
      ensures this.env == env.(source := Clean(source)) && SourceIsClean()
    {
      CleanRooted(source);
      CleanAbsoluteNames(CleanParts(source));
      this.env := env.(source := Clean(source));
      root := new Inode(Directory);
      at := map[[] := root];
    }

    /**
     Hang a new inode below the one at `here`. Overwriting is only asked for where there is nothing to
     displace, so the tree only ever grows.
     */
    method Attach(parent: Inode, ghost here: seq<string>, name: string, child: Inode, overwrite: bool)
      returns (panics: bool)
      requires Valid() && here in at && at[here] == parent && name != ""
      requires overwrite ==> here + [name] !in at
      requires child !in at.Values && child.children == map[]
      modifies this`at, at.Values
      ensures Valid()
      ensures panics <==> FileThere(old(Contents()), here)
      ensures at == if panics || here + [name] in old(at) then old(at) else old(at)[here + [name] := child]
      ensures Contents() ==
        if panics || here + [name] in old(at) then old(Contents()) else old(Contents())[here + [name] := child.node]
    {
      assert Linked(here, name);
      FilesHaveNoChildren(parent, here);
      var added;
      added, panics := parent.AddChild(name, child, overwrite);
      if !added {
        return;
      }
      ghost var there := here + [name];
      at := at[there := child];
      forall p, n ensures Linked(p, n) {
        assert old(Linked(p, n));
        SnocInjective(p, n, here, name);
      }
    }

    lemma FilesHaveNoChildren(inode: Inode, here: seq<string>)
      requires Valid() && here in at && at[here] == inode
      ensures inode.node.File? ==> inode.children == map[]
    {
      forall name ensures inode.node.File? ==> name !in inode.children {
        assert Linked(here, name);
      }
    }

    /** Every inode hangs below a chain of inodes. */
    lemma ContentsClosed()
      requires Valid()
      ensures Closed(Contents())
    {
      forall p, name | p + [name] in Contents() ensures p in Contents() {
        assert Linked(p, name);
      }
    }

    /** One turn of the loop below: the child if there is one, else a new directory. */
    method Enter(inodeParent: Inode, ghost here: seq<string>, component: string) returns (inode: Inode, panics: bool)
      requires Valid() && here in at && at[here] == inodeParent && component != ""
      modifies this`at, at.Values
      ensures Valid() && fresh(at.Values - old(at.Values))
      ensures panics <==> FileThere(old(Contents()), here)
      ensures panics ==> Contents() == old(Contents())
      ensures !panics ==> here + [component] in at && at[here + [component]] == inode
      ensures var there := here + [component];
        !panics ==> Contents() == (if there in old(at) then old(Contents()) else old(Contents())[there := Directory])
    {
      assert Linked(here, component);
      var child := inodeParent.GetChild(component);
      if child != null {
        return child, false;
      }
      inode := new Inode(Directory);
      panics := Attach(inodeParent, here, component, inode, true);
    }

    /** The loop over the components of `dir`: descend, creating what is missing. */
    method Descend(dir: string) returns (inodeParent: Inode, panics: bool)
      requires Valid()
      modifies this`at, at.Values
      ensures Valid() && fresh(at.Values - old(at.Values))
      ensures panics <==> BlockedAbove(old(Contents()), NonEmpty(Split(dir)))
      ensures Contents() == if panics then old(Contents()) else WithDirs(old(Contents()), NonEmpty(Split(dir)))
      ensures !panics ==> NonEmpty(Split(dir)) in at && at[NonEmpty(Split(dir))] == inodeParent
    {
      inodeParent := root;
      var components := Split(dir);
      ghost var before := Contents();
      ghost var here := [];
      ContentsClosed();
      WithDirsHere(before, []);
      for k := 0 to |components|
        invariant Valid() && fresh(at.Values - old(at.Values))
        invariant here == NonEmpty(components[..k])
        invariant here in at && at[here] == inodeParent
        invariant Contents() == WithDirs(before, here) && !BlockedAbove(before, here)
      {
        var component := components[k];
        NonEmptyNext(components, k);
        if |component| == 0 {
          continue;
        }
        WithDirsNext(before, here, component);
        BlockedNext(before, here, component);
        var inode;
        inode, panics := Enter(inodeParent, here, component);
        if panics {
          DescentBlocked(before, components, k);
          return;
        }
        inodeParent := inode;
        here := here + [component];
      }
      assert components[..|components|] == components;
      panics := false;
    }

    /** The part of the callback that changes the tree. */
    method MountFile(dir: string, base: string, content: Bytes, attrPath: string) returns (end: End)
      requires Valid() && base != ""
      modifies this`at, at.Values
      ensures Valid() && fresh(at.Values - old(at.Values))
      ensures Mounted(Contents(), end) ==
        Place(old(Contents()), Placement(NonEmpty(Split(dir)), base, content, env.attrs(attrPath)))
    {
      ghost var dirs := NonEmpty(Split(dir));
      ContentsClosed();
      PlaceInSteps(Contents(), Placement(dirs, base, content, env.attrs(attrPath)));
      var inodeParent, panics := Descend(dir);
      if panics {
        return Panicked;
      }
      var attr := DEFAULT_ATTR;
      match env.attrs(attrPath) {
        case Failed => return Stopped;
        case Loaded(loaded) => attr := loaded;
        case Absent =>
      }
      var inode := new Inode(File(content, attr));
      panics := Attach(inodeParent, dirs, base, inode, false);
      return if panics then Panicked else Finished;
    }

    /** The walk callback: every reason to skip, in the order of the checks, then the mount. */
    method Visit(path: string, node: Source, failed: bool) returns (end: End)
      requires Valid()
      modifies this`at, at.Values
      ensures Valid() && fresh(at.Values - old(at.Values))
      ensures Mounted(Contents(), end) == PlaceAll(old(Contents()),
        if failed || !node.Regular? then [] else Placements(env, path, node))
    {
      if failed || !node.Regular? || !HasSuffix(path, ENCRYPTED_SUFFIX) || node.data.None? {
        return Finished;
      }
      var plain := env.decrypt(node.data.value);
      if plain.None? {
        return Finished;
      }
      var inodePath := TrimSuffix(path, ENCRYPTED_SUFFIX);
      var rel := Rel(env.source, inodePath);
      if rel.None? {
        return Finished;
      }
      BaseNotEmpty(env.source, inodePath);
      var (dir, base) := SplitFile(Clean(rel.value));
      PlaceAllOne(Contents(), PlacementAt(env, path, node.data).value);
      end := MountFile(dir, base, plain.value, TrimSuffix(path, ENCRYPTED_SUFFIX) + ATTR_SUFFIX);
    }

    /**
     filepath.WalkDir below one path: the callback sees the node itself, then the entries in listing
     order; the callback's error ends the walk. A listing that fails is reported to the callback, and
     the entries that were read are still walked.
     */
    method WalkDir(path: string, node: Source) returns (end: End)
      requires Valid()
      modifies this`at, at.Values
      ensures Valid() && fresh(at.Values - old(at.Values))
      ensures Mounted(Contents(), end) == PlaceAll(old(Contents()), Placements(env, path, node))
      decreases node
    {
      end := Visit(path, node, false);
      if end != Finished || !node.Folder? {
        return;
      }
      if node.listingFailed {
        end := Visit(path, node, true);
        if end != Finished {
          return;
        }
      }
      ghost var result := PlaceAll(Contents(), Placements(env, path, node));
      var entries := node.entries;
      for k := 0 to |entries|
        invariant Valid() && fresh(at.Values - old(at.Values))
        invariant result == PlaceAll(Contents(), EntryPlacements(env, path, entries[k..]))
      {
        var here := JoinPath(path, entries[k].name);
        PlaceAllAppend(Contents(), Placements(env, here, entries[k].node),
          EntryPlacements(env, path, entries[k + 1..]));
        assert entries[k..][0] == entries[k] && entries[k..][1..] == entries[k + 1..];
        end := WalkDir(here, entries[k].node);
        if end != Finished {
          return;
        }
      }
      return Finished;
    }

    /**
     Preload: for a source directory, it succeeds exactly when no mountable file has a broken sidecar
     or stands in the way of a later one, and the tree it leaves is then the declared one exactly when
     every stem is kept by cleaning.
     */
    method Preload(source: Source) returns (end: End)
      requires Valid() && SourceIsClean() && Contents() == EMPTY_TREE && Listed(source)
      modifies this`at, at.Values
      ensures Valid()
      ensures Mounted(Contents(), end) == PlaceAll(EMPTY_TREE, Placements(env, env.source, source))
      ensures source.Folder? ==> var cs := Candidates(env, Above(), [], source);
        && (end == Finished <==> AllLoad(cs) && Clear(Above(), cs))
        && (end == Finished ==> (Shows(Contents(), cs) <==> AllFaithful(Above(), cs)))
        && (AllFaithful(Above(), cs) ==> Clear(Above(), cs) && end != Panicked)
    {
      if source.Inaccessible? {
        end := Visit(env.source, source, true);
      } else {
        end := WalkDir(env.source, source);
      }
      if source.Folder? {
        PreloadMeetsSpecification(env, Above(), source);
      }
    }
  }

  lemma SnocInjective(p: seq<string>, n: string, q: seq<string>, m: string)
    ensures p + [n] == q + [m] <==> p == q && n == m
  {
    if p + [n] == q + [m] {
      assert p == (p + [n])[..|p|] && q == (q + [m])[..|q|];
      assert n == (p + [n])[|p|] && m == (q + [m])[|q|];
    }
  }

  lemma PlaceAllOne(tree: Tree, p: Placement)
    ensures PlaceAll(tree, [p]) == Place(tree, p)
  {
    assert [p][..0] == [];
  }

  /** The name a file is mounted under is never empty, whatever the path. */
  lemma BaseNotEmpty(source: string, target: string)
    requires Rooted(source)
    ensures var rel := Rel(source, target); rel.Some? ==> SplitFile(Clean(rel.value)).1 != ""
  {
    if Rooted(target) {
      CleanRooted(source);
      CleanRooted(target);
      RelativeUnrooted(CleanParts(source), CleanParts(target));
      CleanedBase(RelativeTo(CleanParts(source), CleanParts(target)));
    }
  }

  lemma RelativeUnrooted(base: seq<string>, target: seq<string>)
    requires ValidNames(base) && ValidNames(target)
    ensures !Rooted(RelativeTo(base, target))
  {
    var k := CommonPrefix(base, target);
    JoinUnrooted(Ups(|base| - k) + target[k..]);
  }

  lemma JoinUnrooted(parts: seq<string>)
    requires forall i | 0 <= i < |parts| :: !Rooted(parts[i]) && parts[i] != ""
    ensures !Rooted(Relative(parts))
  {
    if parts != [] {
      assert Join(parts)[..|parts[0]|] == parts[0];
    }
  }

  lemma CleanedBase(p: string)
    requires !Rooted(p)
    ensures SplitFile(Clean(p)).1 != ""
  {
    ResolveParts(Split(p), []);
    var parts := CleanParts(p);
    if parts == [] {
      SplitFileJoin([], ".");
      assert [] + ["."] == ["."];
    } else {
      assert parts[..|parts| - 1] + [parts[|parts| - 1]] == parts;
      SplitFileJoin(parts[..|parts| - 1], parts[|parts| - 1]);
    }
  }

  lemma {:induction false} ResolveParts(parts: seq<string>, kept: seq<string>)
    requires SlashFree(parts) && SlashFree(kept) && forall i | 0 <= i < |kept| :: kept[i] != ""
    ensures var out := Resolve(false, parts, kept); SlashFree(out) && forall i | 0 <= i < |out| :: out[i] != ""
  {
    if parts == [] {
    } else {
      ResolveParts(parts[1..], Push(false, kept, parts[0]));
    }
  }

  lemma NonEmptyNext(parts: seq<string>, k: nat)
    requires k < |parts|
    ensures NonEmpty(parts[..k + 1]) == NonEmpty(parts[..k]) + if parts[k] == "" then [] else [parts[k]]
  {
    assert parts[..k + 1] == parts[..k] + [parts[k]];
    NonEmptyAppend(parts[..k], [parts[k]]);
    assert [parts[k]][1..] == [];
  }

  lemma {:induction false} NonEmptyAppend(a: seq<string>, b: seq<string>)
    ensures NonEmpty(a + b) == NonEmpty(a) + NonEmpty(b)
  {
    if a == [] {
      assert a + b == b;
    } else {
      assert (a + b)[1..] == a[1..] + b;
      NonEmptyAppend(a[1..], b);
    }
  }

  lemma WithDirsNext(tree: Tree, here: seq<string>, name: string)
    ensures var before, there := WithDirs(tree, here), here + [name];
      WithDirs(tree, there) == if there in before then before else before[there := Directory]
  {
    var there := here + [name];
    forall p | p in Prefixes(there) ensures p in Prefixes(here) || p == there {
      assert |p| <= |here| ==> p == there[..|p|] == here[..|p|];
    }
    assert here == there[..|here|];
    assert Prefixes(there) == Prefixes(here) + {there};
  }

  /** A file met at the k-th component blocks the whole path, and nothing was missing up to it. */
  lemma DescentBlocked(tree: Tree, parts: seq<string>, k: nat)
    requires Closed(tree) && k < |parts| && parts[k] != ""
    requires FileThere(WithDirs(tree, NonEmpty(parts[..k])), NonEmpty(parts[..k]))
    ensures BlockedAbove(tree, NonEmpty(parts)) && WithDirs(tree, NonEmpty(parts[..k])) == tree
  {
    var here := NonEmpty(parts[..k]);
    WithDirsHere(tree, here);
    NonEmptyNext(parts, k);
    BlockedNext(tree, here, parts[k]);
    NonEmptyPrefix(parts, k + 1);
    BlockedPrefix(tree, here + [parts[k]], NonEmpty(parts));
  }

  lemma NonEmptyPrefix(parts: seq<string>, k: nat)
    requires k <= |parts|
    ensures NonEmpty(parts[..k]) <= NonEmpty(parts)
  {
    assert parts == parts[..k] + parts[k..];
    NonEmptyAppend(parts[..k], parts[k..]);
  }
}
